/**
 * The request accessors of context.go. The framework context is reduced to what the accessors
 * read: the form fields, the path parameters and the request headers, each a map in which a
 * missing name reads as "", and `url.PathUnescape`, which is given as a function. None of the
 * accessors changes the request.
 */
module Context {
  import opened Wrappers
  import opened GoText
  import opened GoStrconv
  import GoBase64
  import Fiber
  import Utils

  /** What the accessors see of `*fiber.Ctx`. */
  datatype Ctx = Ctx(
    form: map<string, string>,
    params: map<string, string>,
    headers: map<string, string>,
    pathUnescape: string -> Option<string>)

  /** A map read the way the framework reads a request: a missing name is "". */
  function Lookup(m: map<string, string>, name: string): (v: string)
    ensures name in m ==> v == m[name]
    ensures name !in m ==> v == ""
  {
    if name in m then m[name] else ""
  }

  /**
   * `FormValueTrim`: the form field without leading and trailing white space (`TrimSpace` keeps
   * the slice of the field that has only white space around it).
   */
  function FormValueTrim(c: Ctx, name: string): (v: string)
    ensures v == TrimSpace(Lookup(c.form, name))
    ensures v == [] || (!IsSpace(v[0]) && !IsSpace(v[|v| - 1]))
    ensures name !in c.form ==> v == ""
  {
    TrimSpace(Lookup(c.form, name))
  }

  /**
   * `ParamTrim`: the path parameter unescaped and trimmed; when unescaping fails, the raw
   * parameter, untrimmed.
   */
  function ParamTrim(c: Ctx, name: string): (v: string)
    ensures c.pathUnescape(Lookup(c.params, name)).None? ==> v == Lookup(c.params, name)
    ensures c.pathUnescape(Lookup(c.params, name)).Some? ==>
              v == TrimSpace(c.pathUnescape(Lookup(c.params, name)).value)
  {
    var raw := Lookup(c.params, name);
    match c.pathUnescape(raw)
    case None => raw
    case Some(u) => TrimSpace(u)
  }

  // ---------------------------------------------------------------------------------------
  // Integers

  /** The error an integer accessor returns: the framework's 404, or `strconv`'s error. */
  datatype AccessError = Status(status: Fiber.Error) | Num(num: NumError)

  /** Go's `(int, error)` pair: the value is also set, to a clamped bound, beside a range error. */
  datatype Answer = Answer(value: int, err: Option<AccessError>)

  /** A value that `strconv` reads without error: well-formed and inside 64 bits. */
  ghost predicate Fits(v: string) {
    WellFormed(v) && MinInt64 <= Denoted(v) <= MaxInt64
  }

  /**
   * What an integer accessor promises for the trimmed value `v` read by the `strconv` function
   * `fn`: "" is 0 with `fiber.ErrNotFound`; otherwise success exactly on the values that fit,
   * with the integer they denote, and otherwise `strconv`'s error for `v`.
   */
  ghost predicate ReadsInt(v: string, fn: string, r: Answer) {
    && (v == "" ==> r == Answer(0, Some(Status(Fiber.ErrNotFound))))
    && (v != "" ==> (r.err.None? <==> Fits(v)))
    && (r.err.None? ==> Fits(v) && r.value == Denoted(v))
    && (v != "" && r.err.Some? ==> r.err.value.Num? && r.err.value.num.func == fn && r.err.value.num.num == v)
  }

  /** The shared body of the integer accessors: the 404 for "", else `strconv.ParseInt`. */
  function IntOf(v: string, fn: string): (r: Answer)
    ensures ReadsInt(v, fn, r)
  {
    ParseIntMeaning(fn, v);
    if v == "" then Answer(0, Some(Status(Fiber.ErrNotFound)))
    else
      var p := ParseInt(fn, v);
      Answer(p.value, if p.err.None? then None else Some(Num(p.err.value)))
  }

  /** The shared body of the `*Default` accessors: the value when there is no error, else `def`. */
  function IntOrDefault(v: string, fn: string, def: int): (r: int)
    ensures Fits(v) ==> r == Denoted(v)
    ensures !Fits(v) ==> r == def
  {
    var a := IntOf(v, fn);
    if a.err.None? then a.value else def
  }

  /** `FormValueInt` (Go's `int` is 64 bits wide, so `strconv.Atoi` reads like `ParseInt`). */
  function FormValueInt(c: Ctx, name: string): (r: Answer)
    ensures ReadsInt(FormValueTrim(c, name), "Atoi", r)
  {
    IntOf(FormValueTrim(c, name), "Atoi")
  }

  /** `FormValueIntDefault`. */
  function FormValueIntDefault(c: Ctx, name: string, def: int): (r: int)
    ensures Fits(FormValueTrim(c, name)) ==> r == Denoted(FormValueTrim(c, name))
    ensures !Fits(FormValueTrim(c, name)) ==> r == def
  {
    IntOrDefault(FormValueTrim(c, name), "Atoi", def)
  }

  /** `FormValueInt64`. */
  function FormValueInt64(c: Ctx, name: string): (r: Answer)
    ensures ReadsInt(FormValueTrim(c, name), "ParseInt", r)
  {
    IntOf(FormValueTrim(c, name), "ParseInt")
  }

  /** `FormValueInt64Default`. */
  function FormValueInt64Default(c: Ctx, name: string, def: int): (r: int)
    ensures Fits(FormValueTrim(c, name)) ==> r == Denoted(FormValueTrim(c, name))
    ensures !Fits(FormValueTrim(c, name)) ==> r == def
  {
    IntOrDefault(FormValueTrim(c, name), "ParseInt", def)
  }

  /** `ParamInt`. */
  function ParamInt(c: Ctx, name: string): (r: Answer)
    ensures ReadsInt(ParamTrim(c, name), "Atoi", r)
  {
    IntOf(ParamTrim(c, name), "Atoi")
  }

  /** `ParamIntDefault`. */
  function ParamIntDefault(c: Ctx, name: string, def: int): (r: int)
    ensures Fits(ParamTrim(c, name)) ==> r == Denoted(ParamTrim(c, name))
    ensures !Fits(ParamTrim(c, name)) ==> r == def
  {
    IntOrDefault(ParamTrim(c, name), "Atoi", def)
  }

  /** `ParamInt64`. */
  function ParamInt64(c: Ctx, name: string): (r: Answer)
    ensures ReadsInt(ParamTrim(c, name), "ParseInt", r)
  {
    IntOf(ParamTrim(c, name), "ParseInt")
  }

  /** `ParamInt64Default`. */
  function ParamInt64Default(c: Ctx, name: string, def: int): (r: int)
    ensures Fits(ParamTrim(c, name)) ==> r == Denoted(ParamTrim(c, name))
    ensures !Fits(ParamTrim(c, name)) ==> r == def
  {
    IntOrDefault(ParamTrim(c, name), "ParseInt", def)
  }

  /** `strconv.Itoa` never writes white space at either end. */
  lemma ItoaTrimmed(n: int)
    ensures TrimSpace(Itoa(n)) == Itoa(n)
  {
    var s := Itoa(n);
    var d := Decimal(if n < 0 then -n else n);
    ItoaDigits(n);
    assert IsDigit(s[|s| - 1]) by {
      assert s[|s| - 1] == d[|d| - 1];
    }
    TrimSpaceKeeps(s);
  }

  /** What `Itoa` writes for a 64-bit integer is non-empty, fits, and denotes that integer. */
  lemma ItoaFits(n: int)
    requires MinInt64 <= n <= MaxInt64
    ensures Itoa(n) != "" && Fits(Itoa(n)) && Denoted(Itoa(n)) == n
  {
    ItoaShape(n);
  }

  /**
   * A form field holding a 64-bit integer as `Itoa` writes it is read back as that integer by
   * both integer accessors and their `*Default` variants, whatever the default.
   */
  lemma FormValueIntRoundTrip(c: Ctx, name: string, n: int, def: int)
    requires name in c.form && c.form[name] == Itoa(n) && MinInt64 <= n <= MaxInt64
    ensures FormValueInt(c, name) == Answer(n, None) && FormValueIntDefault(c, name, def) == n
    ensures FormValueInt64(c, name) == Answer(n, None) && FormValueInt64Default(c, name, def) == n
  {
    ItoaTrimmed(n);
    ItoaFits(n);
    assert FormValueTrim(c, name) == Itoa(n);
  }

  /** White space around such an integer is trimmed away first: " 12 " reads as 12. */
  lemma FormValueIntPadded(c: Ctx, name: string, pre: string, n: int, post: string, def: int)
    requires Blank(pre) && Blank(post)
    requires name in c.form && c.form[name] == pre + Itoa(n) + post && MinInt64 <= n <= MaxInt64
    ensures FormValueInt(c, name) == Answer(n, None) && FormValueIntDefault(c, name, def) == n
    ensures FormValueInt64(c, name) == Answer(n, None) && FormValueInt64Default(c, name, def) == n
  {
    ItoaTrimmed(n);
    TrimSpaceStrips(pre, Itoa(n), post);
    ItoaFits(n);
    assert FormValueTrim(c, name) == Itoa(n);
  }

  /** A missing form field is the 404 error, and the `*Default` variants fall back to `def`. */
  lemma FormValueIntMissing(c: Ctx, name: string, def: int)
    requires name !in c.form
    ensures FormValueInt(c, name) == Answer(0, Some(Status(Fiber.ErrNotFound)))
    ensures FormValueIntDefault(c, name, def) == def && FormValueInt64Default(c, name, def) == def
  {
    assert !WellFormed("");
  }

  /** A field with a letter in it, "abc", is a syntax error, and the `*Default` variants give `def`. */
  lemma FormValueIntLetters(c: Ctx, name: string, def: int)
    requires name in c.form && c.form[name] == "abc"
    ensures FormValueInt(c, name).err == Some(Num(NumError("Atoi", "abc", ErrSyntax)))
    ensures FormValueInt(c, name).value == 0
    ensures FormValueIntDefault(c, name, def) == def
  {
    var v := c.form[name];
    assert ParseInt("Atoi", v) == Parsed(0, Some(NumError("Atoi", v, ErrSyntax))) by {
      assert Unsigned(v) == v;
      assert ParseUint(v) == Syntax;
    }
    FieldKept(c, name);
  }

  // ---------------------------------------------------------------------------------------
  // Booleans

  /** The spellings `strconv.ParseBool` reads as true. */
  predicate TrueSpelling(v: string) {
    v in {"1", "t", "T", "TRUE", "true", "True"}
  }

  /** The shared body of the boolean accessors: `ParseBool`, with false on a parse error. */
  function BoolOf(v: string): (r: bool)
    ensures r <==> TrueSpelling(v)
  {
    var p := ParseBool(v);
    if p.err.Some? then false else p.value
  }

  /** `FormValueBool`: true exactly for the true spellings; anything else, "wth" included, is false. */
  function FormValueBool(c: Ctx, name: string): (r: bool)
    ensures r <==> TrueSpelling(FormValueTrim(c, name))
  {
    BoolOf(FormValueTrim(c, name))
  }

  /** `ParamBool`. */
  function ParamBool(c: Ctx, name: string): (r: bool)
    ensures r <==> TrueSpelling(ParamTrim(c, name))
  {
    BoolOf(ParamTrim(c, name))
  }

  /** A form field holding `strconv.FormatBool(b)` is read back as `b`. */
  lemma FormValueBoolRoundTrip(c: Ctx, name: string, b: bool)
    requires name in c.form && c.form[name] == FormatBool(b)
    ensures FormValueBool(c, name) == b
  {
    FieldKept(c, name);
    BoolOfFormatBool(b);
  }

  /** A form field that neither starts nor ends with white space is read as it stands. */
  lemma FieldKept(c: Ctx, name: string)
    requires name in c.form && c.form[name] != []
    requires !IsSpace(c.form[name][0]) && !IsSpace(c.form[name][|c.form[name]| - 1])
    ensures FormValueTrim(c, name) == c.form[name]
  {
    TrimSpaceKeeps(c.form[name]);
  }

  /** `FormatBool` writes a spelling that `ParseBool` reads back. */
  lemma BoolOfFormatBool(b: bool)
    ensures BoolOf(FormatBool(b)) == b
  {
    ParseBoolSpellings(b);
  }

  // ---------------------------------------------------------------------------------------
  // Base64

  /**
   * `FormValueBase64`: the bytes of the trimmed field decoded with the URL-safe alphabet when
   * that succeeds, else with the standard alphabet when that succeeds, else the field itself.
   */
  function FormValueBase64(c: Ctx, name: string): (r: seq<byte>)
    ensures var v := FormValueTrim(c, name);
            GoBase64.DecodeString(GoBase64.Url, v).Ok? ==> r == GoBase64.DecodeString(GoBase64.Url, v).value
    ensures var v := FormValueTrim(c, name);
            GoBase64.DecodeString(GoBase64.Url, v).Err? && GoBase64.DecodeString(GoBase64.Std, v).Ok? ==>
              r == GoBase64.DecodeString(GoBase64.Std, v).value
    ensures var v := FormValueTrim(c, name);
            GoBase64.DecodeString(GoBase64.Url, v).Err? && GoBase64.DecodeString(GoBase64.Std, v).Err? ==>
              r == Utf8Encode(v)
  {
    var v := FormValueTrim(c, name);
    match GoBase64.DecodeString(GoBase64.Url, v)
    case Ok(de) => de
    case Err(_) =>
      match GoBase64.DecodeString(GoBase64.Std, v)
      case Ok(de) => de
      case Err(_) => Utf8Encode(v)
  }

  /** `ParamBase64`: only the URL-safe alphabet is tried; otherwise the trimmed parameter itself. */
  function ParamBase64(c: Ctx, name: string): (r: seq<byte>)
    ensures var v := ParamTrim(c, name);
            GoBase64.DecodeString(GoBase64.Url, v).Ok? ==> r == GoBase64.DecodeString(GoBase64.Url, v).value
    ensures var v := ParamTrim(c, name);
            GoBase64.DecodeString(GoBase64.Url, v).Err? ==> r == Utf8Encode(v)
  {
    var v := ParamTrim(c, name);
    match GoBase64.DecodeString(GoBase64.Url, v)
    case Ok(de) => de
    case Err(_) => Utf8Encode(v)
  }

  /** An encoding has no white space at its ends, so trimming keeps it. */
  lemma EncodedTrimmed(a: GoBase64.Alphabet, data: seq<byte>)
    ensures TrimSpace(GoBase64.EncodeToString(a, data)) == GoBase64.EncodeToString(a, data)
  {
    var s := GoBase64.EncodeToString(a, data);
    GoBase64.EncodePrintable(a, data);
    TrimSpaceKeeps(s);
  }

  /**
   * Whichever alphabet a client used, `FormValueBase64` hands back the bytes it encoded: a
   * URL-safe encoding is decoded by the first attempt, and a standard one either by the first
   * (when it holds neither '+' nor '/') or by the second.
   */
  lemma FormValueBase64RoundTrip(c: Ctx, name: string, a: GoBase64.Alphabet, data: seq<byte>)
    requires name in c.form && c.form[name] == GoBase64.EncodeToString(a, data)
    ensures FormValueBase64(c, name) == data
  {
    var v := c.form[name];
    EncodedTrimmed(a, data);
    assert FormValueTrim(c, name) == v;
    GoBase64.StringRoundTrip(a, data);
    if a == GoBase64.Std && GoBase64.DecodeString(GoBase64.Url, v).Ok? {
      GoBase64.StdReadAsUrl(data);
    }
  }

  /** A parameter that unescapes to a URL-safe encoding is decoded by `ParamBase64`. */
  lemma ParamBase64RoundTrip(c: Ctx, name: string, data: seq<byte>)
    requires c.pathUnescape(Lookup(c.params, name)) == Some(GoBase64.EncodeToString(GoBase64.Url, data))
    ensures ParamBase64(c, name) == data
  {
    EncodedTrimmed(GoBase64.Url, data);
    GoBase64.StringRoundTrip(GoBase64.Url, data);
  }

  // ---------------------------------------------------------------------------------------
  // Arrays

  /** The separator `FormValueArray` splits on: the first one given, else ",". */
  function Separator(sep: seq<string>): (s: string)
    ensures |sep| == 0 ==> s == ","
    ensures |sep| > 0 ==> s == sep[0]
  {
    if |sep| == 0 then "," else sep[0]
  }

  /**
   * `FormValueArray(name, sep...)`: nothing for an empty trimmed field; otherwise
   * `strings.Split` on the separator, which for "" cuts the field into single characters.
   * Joining the pieces with the separator gives back the field, no piece holds it, and each
   * cut is at the first occurrence of the separator after the previous one.
   */
  function FormValueArray(c: Ctx, name: string, sep: seq<string>): (r: seq<string>)
    ensures r == [] <==> FormValueTrim(c, name) == ""
    ensures FormValueTrim(c, name) != "" ==> Join(r, Separator(sep)) == FormValueTrim(c, name)
    ensures Separator(sep) != "" ==> forall k :: 0 <= k < |r| ==> Index(r[k], Separator(sep)) == -1
    ensures Separator(sep) != "" ==>
              forall k :: 0 <= k < |r| - 1 ==> Index(r[k] + Separator(sep), Separator(sep)) == |r[k]|
    ensures Separator(sep) == "" ==> forall k :: 0 <= k < |r| ==> |r[k]| == 1
  {
    var v := FormValueTrim(c, name);
    if |v| == 0 then []
    else
      var s := Separator(sep);
      if s == "" then
        JoinExplode(v);
        Explode(v)
      else
        SplitThenJoin(v, s);
        SplitLeftmost(v, s);
        Split(v, s)
  }

  /**
   * A field written as pieces joined by ',' (pieces free of ',', the whole non-empty and not
   * padded with white space) is read back as those pieces when no separator is given.
   */
  lemma FormValueArrayRoundTrip(c: Ctx, name: string, parts: seq<string>)
    requires |parts| >= 1 && forall k :: 0 <= k < |parts| ==> ',' !in parts[k]
    requires name in c.form && c.form[name] == Join(parts, ",")
    requires c.form[name] != "" && TrimSpace(c.form[name]) == c.form[name]
    ensures FormValueArray(c, name, []) == parts
  {
    JoinThenSplit(parts, ',');
  }

  // ---------------------------------------------------------------------------------------
  // BasicAuth

  /** The name of the header `BasicAuth` reads. */
  const HeaderAuthorization := "Authorization"

  const AuthorizationFormatError := Fiber.Error(Fiber.StatusUnauthorized, "invalid authorization format")
  const BasicFormatError := Fiber.Error(Fiber.StatusUnauthorized, "invalid basic auth format")
  const CredentialsError := Fiber.Error(Fiber.StatusUnauthorized, "invalid user/passwd")

  /**
   * `BasicAuth(user, passwd)`: nil (`None`) exactly when the Authorization header is the word
   * "basic" in any case, one space, and standard base64 of the bytes of `user`, ':' and
   * `passwd`, with no other ':' anywhere, so neither a user nor a password containing ':' is
   * ever accepted. Every failure is a 401: the header's format, the scheme, the decoder's own
   * message, the credentials' format, or a mismatch.
   */
  function BasicAuth(c: Ctx, user: string, passwd: string): (r: Option<Fiber.Error>)
    ensures r.None? <==>
              var f := Split(Lookup(c.headers, HeaderAuthorization), " ");
              |f| == 2 && ToLower(f[0]) == "basic" && ':' !in user && ':' !in passwd &&
              GoBase64.DecodeString(GoBase64.Std, f[1]) == Ok(Utf8Encode(user) + [Utils.Colon] + Utf8Encode(passwd))
    ensures r.Some? ==> r.value.code == Fiber.StatusUnauthorized
    ensures |Split(Lookup(c.headers, HeaderAuthorization), " ")| != 2 ==> r == Some(AuthorizationFormatError)
    ensures var f := Split(Lookup(c.headers, HeaderAuthorization), " ");
            |f| == 2 && ToLower(f[0]) == "basic" && GoBase64.DecodeString(GoBase64.Std, f[1]).Err? ==>
              r == Some(Fiber.Error(Fiber.StatusUnauthorized,
                                    GoBase64.CorruptInputMessage(GoBase64.DecodeString(GoBase64.Std, f[1]).error)))
    ensures var f := Split(Lookup(c.headers, HeaderAuthorization), " ");
            |f| == 2 && ToLower(f[0]) != "basic" ==> r == Some(BasicFormatError)
    ensures var f := Split(Lookup(c.headers, HeaderAuthorization), " ");
            |f| == 2 && ToLower(f[0]) == "basic" && GoBase64.DecodeString(GoBase64.Std, f[1]).Ok? &&
            |Split(GoBase64.DecodeString(GoBase64.Std, f[1]).value, [Utils.Colon])| != 2 ==>
              r == Some(BasicFormatError)
    ensures var f := Split(Lookup(c.headers, HeaderAuthorization), " ");
            |f| == 2 && ToLower(f[0]) == "basic" && GoBase64.DecodeString(GoBase64.Std, f[1]).Ok? ==>
            var pieces := Split(GoBase64.DecodeString(GoBase64.Std, f[1]).value, [Utils.Colon]);
            |pieces| == 2 && (pieces[0] != Utf8Encode(user) || pieces[1] != Utf8Encode(passwd)) ==>
              r == Some(CredentialsError)
  {
    var slices := Split(Lookup(c.headers, HeaderAuthorization), " ");
    if |slices| != 2 then Some(AuthorizationFormatError)
    else if ToLower(slices[0]) != "basic" then Some(BasicFormatError)
    else
      match GoBase64.DecodeString(GoBase64.Std, slices[1])
      case Err(offset) => Some(Fiber.Error(Fiber.StatusUnauthorized, GoBase64.CorruptInputMessage(offset)))
      case Ok(raw) =>
        var credentials := Split(raw, [Utils.Colon]);
        if |credentials| != 2 then
          CredentialsMatch(raw, user, passwd);
          Some(BasicFormatError)
        else if Utf8Encode(user) == credentials[0] && Utf8Encode(passwd) == credentials[1] then
          CredentialsMatch(raw, user, passwd);
          None
        else
          CredentialsMatch(raw, user, passwd);
          Some(CredentialsError)
  }

  /**
   * Decoded credentials split on ':' into the bytes of `user` and `passwd` exactly when they
   * are those bytes around one ':' and neither string holds a ':'.
   */
  lemma CredentialsMatch(raw: seq<byte>, user: string, passwd: string)
    ensures var p := Split(raw, [Utils.Colon]);
            (|p| == 2 && p[0] == Utf8Encode(user) && p[1] == Utf8Encode(passwd)) <==>
            (':' !in user && ':' !in passwd && raw == Utf8Encode(user) + [Utils.Colon] + Utf8Encode(passwd))
  {
    var p := Split(raw, [Utils.Colon]);
    var u, w := Utf8Encode(user), Utf8Encode(passwd);
    Utf8AsciiByte(user, ':');
    Utf8AsciiByte(passwd, ':');
    if |p| == 2 {
      SplitTwo(raw, Utils.Colon);
    }
    if ':' !in user && ':' !in passwd && raw == u + [Utils.Colon] + w {
      SplitPair(u, Utils.Colon, w);
    }
  }

  /** The header a client builds from the right user and password is accepted. */
  lemma BasicAuthAccepts(c: Ctx, scheme: string, user: string, passwd: string)
    requires ' ' !in scheme && ToLower(scheme) == "basic"
    requires ':' !in user && ':' !in passwd
    requires HeaderAuthorization in c.headers && c.headers[HeaderAuthorization] == Utils.BasicHeader(scheme, user, passwd)
    ensures BasicAuth(c, user, passwd) == None
  {
    var cred := Utf8Encode(user + ":" + passwd);
    Utils.HeaderFields(scheme, GoBase64.EncodeToString(GoBase64.Std, cred));
    GoBase64.StringRoundTrip(GoBase64.Std, cred);
    Utils.CredentialBytes(user, passwd);
  }
}
