/**
 * The application's error taxonomy (src/filesystem/error.rs): a closed set of
 * error kinds, the wrapper `AppError { error_kind, msg }`, its constructors,
 * the `From` conversions, the two `Display` renderings, the deliberately lossy
 * `Clone`, and the `context!` macro.
 *
 * Each foreign cause (`io::Error`, `serde_json::Error`, ...) is an opaque
 * payload known only through its `Display` text.
 */
module Errors {
  import opened Wrappers
  import Text

  // ---------------------------------------------------------------------
  // Foreign causes, one type each so that the `From` conversions stay type-directed

  datatype IoError = IoError(text: string) {
    function ToString(): string { text }
  }
  datatype ParseIntError = ParseIntError(text: string) {
    function ToString(): string { text }
  }
  datatype JsonError = JsonError(text: string) {
    function ToString(): string { text }
  }
  datatype SystemTimeError = SystemTimeError(text: string) {
    function ToString(): string { text }
  }
  datatype Utf8Error = Utf8Error(text: string) {
    function ToString(): string { text }
  }
  datatype DbError = DbError(text: string) {
    function ToString(): string { text }
  }

  // ---------------------------------------------------------------------
  // AppCustomErrorKind

  datatype CustomErrorKind = RepositoryStructure | RepositoryMetadata | RepositorySign | PhantomCloneError

  /** `Display` for `AppCustomErrorKind`: one fixed sentence per kind. */
  function CustomKindDisplay(kind: CustomErrorKind): (s: string)
    ensures kind == PhantomCloneError <==> s == "no error"
  {
    match kind
    case RepositoryStructure => "a repository structure operation issue"
    case RepositoryMetadata => "repository metadata operation issue"
    case RepositorySign => "repository sign issue"
    case PhantomCloneError => "no error"
  }

  /** Reads a custom kind back from its rendering. */
  function ParseCustomKind(s: string): Option<CustomErrorKind> {
    if s == "a repository structure operation issue" then Some(RepositoryStructure)
    else if s == "repository metadata operation issue" then Some(RepositoryMetadata)
    else if s == "repository sign issue" then Some(RepositorySign)
    else if s == "no error" then Some(PhantomCloneError)
    else None
  }

  /** Distinct custom kinds render differently. */
  lemma CustomKindDisplayInjective(a: CustomErrorKind, b: CustomErrorKind)
    ensures CustomKindDisplay(a) == CustomKindDisplay(b) <==> a == b
  {
    ParseCustomKindInvertsDisplay(a);
    ParseCustomKindInvertsDisplay(b);
  }

  /** Reading a custom kind's rendering back gives the kind. */
  lemma ParseCustomKindInvertsDisplay(kind: CustomErrorKind)
    ensures ParseCustomKind(CustomKindDisplay(kind)) == Some(kind)
  {
    match kind
    case RepositoryStructure =>
    case RepositoryMetadata =>
    case RepositorySign =>
    case PhantomCloneError =>
  }

  // ---------------------------------------------------------------------
  // InternalError and the From conversions

  datatype InternalError =
    | Io(io: IoError)
    | Parse(parse: ParseIntError)
    | Json(json: JsonError)
    | SystemTime(time: SystemTimeError)
    | Utf8(utf8: Utf8Error)
    | Db(db: DbError)
    | Custom(kind: CustomErrorKind)

  /** The variant tag of an internal error, without its payload. */
  datatype Variant = IoVariant | ParseVariant | JsonVariant | SystemTimeVariant | Utf8Variant | DbVariant | CustomVariant

  function VariantOf(e: InternalError): Variant {
    match e
    case Io(_) => IoVariant
    case Parse(_) => ParseVariant
    case Json(_) => JsonVariant
    case SystemTime(_) => SystemTimeVariant
    case Utf8(_) => Utf8Variant
    case Db(_) => DbVariant
    case Custom(_) => CustomVariant
  }

  /** The `Display` text of the wrapped cause: the foreign error's own text, or the custom kind's sentence. */
  function CauseText(e: InternalError): string {
    match e
    case Io(c) => c.ToString()
    case Parse(c) => c.ToString()
    case Json(c) => c.ToString()
    case SystemTime(c) => c.ToString()
    case Utf8(c) => c.ToString()
    case Db(c) => c.ToString()
    case Custom(k) => CustomKindDisplay(k)
  }

  function FromIo(err: IoError): (r: InternalError)
    ensures VariantOf(r) == IoVariant && CauseText(r) == err.ToString()
  {
    Io(err)
  }

  function FromJson(err: JsonError): (r: InternalError)
    ensures VariantOf(r) == JsonVariant && CauseText(r) == err.ToString()
  {
    Json(err)
  }

  function FromSystemTime(err: SystemTimeError): (r: InternalError)
    ensures VariantOf(r) == SystemTimeVariant && CauseText(r) == err.ToString()
  {
    SystemTime(err)
  }

  function FromParseInt(err: ParseIntError): (r: InternalError)
    ensures VariantOf(r) == ParseVariant && CauseText(r) == err.ToString()
  {
    Parse(err)
  }

  function FromUtf8(err: Utf8Error): (r: InternalError)
    ensures VariantOf(r) == Utf8Variant && CauseText(r) == err.ToString()
  {
    Utf8(err)
  }

  function FromDb(err: DbError): (r: InternalError)
    ensures VariantOf(r) == DbVariant && CauseText(r) == err.ToString()
  {
    Db(err)
  }

  /** Every conversion keeps its cause: converting two causes of the same type gives equal errors only for equal causes. */
  lemma FromConversionsInjective(
    a: IoError, b: IoError, c: DbError, d: DbError, j: JsonError, k: JsonError,
    p: ParseIntError, q: ParseIntError, t: SystemTimeError, w: SystemTimeError, u: Utf8Error, v: Utf8Error)
    ensures FromIo(a) == FromIo(b) <==> a == b
    ensures FromDb(c) == FromDb(d) <==> c == d
    ensures FromJson(j) == FromJson(k) <==> j == k
    ensures FromParseInt(p) == FromParseInt(q) <==> p == q
    ensures FromSystemTime(t) == FromSystemTime(w) <==> t == w
    ensures FromUtf8(u) == FromUtf8(v) <==> u == v
  {
  }

  // ---------------------------------------------------------------------
  // AppError

  datatype AppError = AppError(errorKind: InternalError, msg: string)

  type AppResult<T> = Result<T, AppError>

  /** The category word `Display` puts in front of each variant. */
  function Category(v: Variant): (s: string)
    ensures ':' !in s
  {
    match v
    case IoVariant => "I/O error"
    case ParseVariant => "conversion error"
    case JsonVariant => "JSON error"
    case Utf8Variant => "Utf8 conversion error"
    case SystemTimeVariant => "system time error"
    case DbVariant => "database error"
    case CustomVariant => "custom error"
  }

  /** Reads a variant back from its category word. */
  function ParseCategory(s: string): Option<Variant> {
    if s == "I/O error" then Some(IoVariant)
    else if s == "conversion error" then Some(ParseVariant)
    else if s == "JSON error" then Some(JsonVariant)
    else if s == "Utf8 conversion error" then Some(Utf8Variant)
    else if s == "system time error" then Some(SystemTimeVariant)
    else if s == "database error" then Some(DbVariant)
    else if s == "custom error" then Some(CustomVariant)
    else None
  }

  /** The seven category words are pairwise distinct. */
  lemma CategoriesDistinct(v: Variant, w: Variant)
    ensures Category(v) == Category(w) <==> v == w
  {
    ParseCategoryInvertsCategory(v);
    ParseCategoryInvertsCategory(w);
  }

  /** Each category word reads back as its variant. */
  lemma ParseCategoryInvertsCategory(v: Variant)
    ensures ParseCategory(Category(v)) == Some(v)
  {
    match v
    case IoVariant =>
    case ParseVariant =>
    case JsonVariant =>
    case Utf8Variant =>
    case SystemTimeVariant =>
    case DbVariant =>
    case CustomVariant =>
  }

  /** `AppError::new_custom`. */
  function NewCustom(kind: CustomErrorKind, msg: string): (r: AppError)
    ensures r.errorKind == Custom(kind) && r.msg == msg
    ensures VariantOf(r.errorKind) == CustomVariant && CauseText(r.errorKind) == CustomKindDisplay(kind)
  {
    AppError(Custom(kind), msg)
  }

  /** A custom error renders as `custom error: <msg> (<kind sentence>)`. */
  lemma NewCustomDisplay(kind: CustomErrorKind, msg: string)
    ensures Display(NewCustom(kind, msg)) == "custom error: " + msg + " (" + CustomKindDisplay(kind) + ")"
  {
    var k := CustomKindDisplay(kind);
    var c := Category(CustomVariant);
    assert c == "custom error";
    assert c + ": " == "custom error: ";
    assert Display(NewCustom(kind, msg)) == c + ": " + msg + " (" + k + ")";
  }

  /**
   * `AppError::from_error`. Rust's `err.into()` is resolved at the call site:
   * the caller passes the `InternalError` that one of the `From*` conversions
   * (or the identity conversion) produced.
   */
  function FromError(err: InternalError, msg: string): (r: AppError)
    ensures r.errorKind == err && r.msg == msg
  {
    AppError(err, msg)
  }

  /**
   * `Display` for `AppError`. Each variant's format string is
   * `"<category>: {} ({})"` filled with the message and the cause's text.
   */
  function Display(e: AppError): (s: string)
    ensures |s| == |Category(VariantOf(e.errorKind))| + |e.msg| + |CauseText(e.errorKind)| + 5
  {
    Category(VariantOf(e.errorKind)) + ": " + e.msg + " (" + CauseText(e.errorKind) + ")"
  }

  /** A rendering is the category, `": "`, the message, then the cause in parentheses. */
  lemma DisplayLayout(e: AppError)
    ensures var s, n, m := Display(e), |Category(VariantOf(e.errorKind))|, |e.msg|;
      |s| == n + 2 + m + 2 + |CauseText(e.errorKind)| + 1 &&
      s[..n] == Category(VariantOf(e.errorKind)) && s[n..n + 2] == ": " &&
      s[n + 2..n + 2 + m] == e.msg && s[n + 2 + m..] == " (" + CauseText(e.errorKind) + ")"
  {
    var c, m, t := Category(VariantOf(e.errorKind)), e.msg, CauseText(e.errorKind);
    assert Display(e) == c + ": " + (m + (" (" + t + ")"));
  }

  /** The text before the first colon of a rendering names the variant, whatever the message says. */
  lemma DisplayNamesVariant(e: AppError)
    ensures ParseCategory(Text.Before(Display(e), ':')) == Some(VariantOf(e.errorKind))
  {
    var c, m, t := Category(VariantOf(e.errorKind)), e.msg, CauseText(e.errorKind);
    assert Display(e) == c + ": " + m + " (" + t + ")";
    ColonAfter(c, m, t);
    Text.BeforeSeparated(c, ':', " " + m + " (" + t + ")");
    ParseCategoryInvertsCategory(VariantOf(e.errorKind));
  }

  /** A rendering splits at the colon right after its category. */
  lemma ColonAfter(c: string, m: string, t: string)
    ensures c + ": " + m + " (" + t + ")" == c + [':'] + (" " + m + " (" + t + ")")
  {
  }

  /** Two errors that render alike are of the same variant. */
  lemma DisplayDistinguishesVariants(a: AppError, b: AppError)
    ensures Display(a) == Display(b) ==> VariantOf(a.errorKind) == VariantOf(b.errorKind)
  {
    DisplayNamesVariant(a);
    DisplayNamesVariant(b);
  }

  // ---------------------------------------------------------------------
  // Clone

  /** `Clone` for `AppError`: the cause cannot be duplicated, so every clone is the same placeholder. */
  function Clone(e: AppError): (r: AppError)
    ensures r.errorKind == Custom(PhantomCloneError) && r.msg == "fake clone error"
  {
    NewCustom(PhantomCloneError, "fake clone error")
  }

  /** Every clone renders the same fixed text. */
  lemma CloneDisplay(e: AppError)
    ensures Display(Clone(e)) == "custom error: fake clone error (no error)"
  {
    var msg, k := "fake clone error", CustomKindDisplay(PhantomCloneError);
    NewCustomDisplay(PhantomCloneError, msg);
    assert k == "no error";
    var head := "custom error: " + msg;
    assert head == "custom error: fake clone error";
    assert head + " (" == "custom error: fake clone error (";
    assert head + " (" + k == "custom error: fake clone error (no error";
  }

  /** A clone does not depend on what was cloned. */
  lemma CloneIgnoresInput(a: AppError, b: AppError)
    ensures Clone(a) == Clone(b)
  {
  }

  /** Cloning gives back the original only when the original is itself the placeholder. */
  lemma CloneIsIdentityOnlyOnPlaceholder(e: AppError)
    ensures Clone(e) == e <==> e.errorKind == Custom(PhantomCloneError) && e.msg == "fake clone error"
  {
  }

  /** A clone never keeps a foreign cause. */
  lemma CloneLosesCause(e: AppError)
    ensures VariantOf(Clone(e).errorKind) == CustomVariant
    ensures VariantOf(e.errorKind) != CustomVariant ==> Clone(e) != e
  {
  }

  // ---------------------------------------------------------------------
  // The `context!` macro and the part of `format!` it relies on

  /**
   * The number of `{}` holes of a format string, or `None` when it is not
   * one `format!` accepts. Only positional `{}` holes and the `{{` / `}}`
   * escapes are modelled.
   */
  function Holes(fmt: string): (r: Option<nat>)
    ensures r.Some? ==> 2 * r.value <= |fmt|
    decreases |fmt|
  {
    if fmt == [] then Some(0)
    else if |fmt| >= 2 && fmt[0] == '{' && fmt[1] == '}' then
      match Holes(fmt[2..]) case Some(n) => Some(n + 1) case None => None
    else if |fmt| >= 2 && ((fmt[0] == '{' && fmt[1] == '{') || (fmt[0] == '}' && fmt[1] == '}')) then
      Holes(fmt[2..])
    else if fmt[0] == '{' || fmt[0] == '}' then None
    else Holes(fmt[1..])
  }

  /** `format!(fmt, args...)`: each `{}` takes the next argument's text, `{{` and `}}` give one brace. */
  function Format(fmt: string, args: seq<string>): (r: string)
    requires Holes(fmt) == Some(|args|)
    ensures '{' !in fmt && '}' !in fmt ==> r == fmt
    decreases |fmt|
  {
    if fmt == [] then []
    else if |fmt| >= 2 && fmt[0] == '{' && fmt[1] == '}' then args[0] + Format(fmt[2..], args[1..])
    else if |fmt| >= 2 && ((fmt[0] == '{' && fmt[1] == '{') || (fmt[0] == '}' && fmt[1] == '}')) then
      [fmt[0]] + Format(fmt[2..], args)
    else [fmt[0]] + Format(fmt[1..], args)
  }

  /** Doubles every brace, so that the text survives `format!` verbatim. */
  function Escape(s: string): (r: string)
    ensures |r| >= |s|
  {
    if s == [] then []
    else if s[0] == '{' || s[0] == '}' then [s[0], s[0]] + Escape(s[1..])
    else [s[0]] + Escape(s[1..])
  }

  /** An escaped text has no holes and formats back to itself. */
  lemma {:induction false} FormatEscape(s: string)
    ensures Holes(Escape(s)) == Some(0)
    ensures Format(Escape(s), []) == s
  {
    if s != [] {
      FormatEscape(s[1..]);
      var e := Escape(s);
      if s[0] == '{' || s[0] == '}' {
        assert e[2..] == Escape(s[1..]);
      } else {
        assert e[1..] == Escape(s[1..]);
      }
    }
  }

  /** A format string made of one hole between brace-free texts puts the argument between them. */
  lemma FormatOneHole(pre: string, arg: string, post: string)
    requires '{' !in pre && '}' !in pre && '{' !in post && '}' !in post
    ensures Holes(pre + "{}" + post) == Some(1)
    ensures Format(pre + "{}" + post, [arg]) == pre + arg + post
  {
    FormatEscape(post);
    EscapeBraceFree(post);
    FormatLeadingHole(arg, post);
    FormatLiteralPrefix(pre, "{}" + post, [arg]);
    assert pre + "{}" + post == pre + ("{}" + post);
  }

  /** A hole at the front takes the argument. */
  lemma FormatLeadingHole(arg: string, post: string)
    requires Holes(post) == Some(0) && Format(post, []) == post
    ensures Holes("{}" + post) == Some(1)
    ensures Format("{}" + post, [arg]) == arg + post
  {
    var f := "{}" + post;
    assert f[0] == '{' && f[1] == '}' && f[2..] == post;
    assert [arg][1..] == [];
  }

  /** Escaping leaves brace-free text unchanged. */
  lemma {:induction false} EscapeBraceFree(s: string)
    requires '{' !in s && '}' !in s
    ensures Escape(s) == s
  {
    if s != [] {
      EscapeBraceFree(s[1..]);
    }
  }

  /** Brace-free text in front of a format string is copied through. */
  lemma {:induction false} FormatLiteralPrefix(pre: string, rest: string, args: seq<string>)
    requires '{' !in pre && '}' !in pre
    requires Holes(rest) == Some(|args|)
    ensures Holes(pre + rest) == Some(|args|)
    ensures Format(pre + rest, args) == pre + Format(rest, args)
  {
    if pre == [] {
      assert pre + rest == rest;
    } else {
      var f := pre + rest;
      assert f[0] == pre[0] && f[0] != '{' && f[0] != '}';
      assert f[1..] == pre[1..] + rest;
      FormatLiteralPrefix(pre[1..], rest, args);
      assert Format(f, args) == [pre[0]] + Format(f[1..], args);
    }
  }

  /** `context!(err, fmt, args...)`: `from_error` with the formatted text as message. */
  function Context(err: InternalError, fmt: string, args: seq<string>): (r: AppError)
    requires Holes(fmt) == Some(|args|)
    ensures r.errorKind == err
    ensures r.msg == Format(fmt, args)
  {
    FromError(err, Format(fmt, args))
  }

  /** With one hole, the message is the argument framed by the literal text around the hole. */
  lemma ContextOneHole(err: InternalError, pre: string, arg: string, post: string)
    requires '{' !in pre && '}' !in pre && '{' !in post && '}' !in post
    ensures Holes(pre + "{}" + post) == Some(1)
    ensures Context(err, pre + "{}" + post, [arg]).msg == pre + arg + post
  {
    FormatOneHole(pre, arg, post);
  }
}
