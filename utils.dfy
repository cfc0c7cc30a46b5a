/**
 * The slice, path and authorisation helpers of utils.go: `RemoveIndex`, `chopPath` and
 * `ExtractAuthString`.
 */
module Utils {
  import opened Wrappers
  import opened GoText
  import GoBase64
  import Fiber

  // ---------------------------------------------------------------------------------------
  // RemoveIndex

  /** The elements of `s` in order, without the one at `index`. */
  function Without<T>(s: seq<T>, index: nat): (r: seq<T>)
    requires index < |s|
    ensures |r| == |s| - 1
    ensures forall k :: 0 <= k < |r| ==> r[k] == if k < index then s[k] else s[k + 1]
    ensures multiset(r) + multiset{s[index]} == multiset(s)
  {
    assert s == s[..index] + [s[index]] + s[index + 1..];
    s[..index] + s[index + 1..]
  }

  /**
   * `RemoveIndex(s, index)`: `append(s[:index], s[index+1:]...)` writes into the caller's own
   * backing array. The elements after `index` move one slot down, the slots before `index`
   * keep their values, the last slot keeps its old value, and the result is the array's first
   * `len(s) - 1` slots. An index outside `0 <= index < len(s)` makes Go panic on the slice
   * expression, so it is excluded.
   */
  method RemoveIndex(s: array<string>, index: int) returns (r: seq<string>)
    requires 0 <= index < s.Length
    modifies s
    ensures r == Without(old(s[..]), index)
    ensures s[..s.Length - 1] == r
    ensures s[s.Length - 1] == old(s[s.Length - 1])
  {
    var k := index;
    while k < s.Length - 1
      invariant index <= k <= s.Length - 1
      invariant forall j :: 0 <= j < index ==> s[j] == old(s[j])
      invariant forall j :: index <= j < k ==> s[j] == old(s[j + 1])
      invariant forall j :: k <= j < s.Length ==> s[j] == old(s[j])
    {
      s[k] := s[k + 1];
      k := k + 1;
    }
    r := s[..s.Length - 1];
  }

  // ---------------------------------------------------------------------------------------
  // chopPath

  /** No occurrence of `sep` after position `i` means none in the suffix that starts after `i`. */
  lemma SuffixFree<T>(s: seq<T>, sep: seq<T>, i: int)
    requires -1 <= i < |s|
    requires forall k :: i < k ==> !OccursAt(s, sep, k)
    ensures Index(s[i + 1..], sep) == -1
  {
    var t := s[i + 1..];
    var j := Index(t, sep);
    if j != -1 {
      assert t[j..j + |sep|] == s[i + 1 + j..i + 1 + j + |sep|];
      assert OccursAt(s, sep, i + 1 + j);
    }
  }

  /**
   * `chopPath(original, pathChar)`: everything after the last occurrence of `pathChar`, or the
   * whole of `original` when there is none. The cut is one character past the start of the
   * occurrence, whatever the length of `pathChar`. An empty `pathChar` makes `LastIndex` return
   * `len(original)` and the slice panic, so it is excluded.
   */
  function ChopPath(original: string, pathChar: string): (r: string)
    requires |pathChar| > 0
    ensures |r| <= |original| && r == original[|original| - |r|..]
    ensures Index(r, pathChar) == -1
    ensures Index(original, pathChar) == -1 <==> r == original
    ensures |pathChar| == 1 && r != original ==>
              original == original[..|original| - |r| - 1] + pathChar + r
  {
    var i := LastIndex(original, pathChar);
    if i == -1 then
      SuffixFree(original, pathChar, -1);
      original
    else
      SuffixFree(original, pathChar, i);
      assert original[i..i + |pathChar|] == pathChar;
      assert original == original[..i] + original[i..i + |pathChar|] + original[i + |pathChar|..];
      original[i + 1..]
  }

  /** The intent its Go comment states: the file name after the last slash of a path. */
  lemma ChopPathSlash(dir: string, name: string)
    requires '/' !in name
    ensures ChopPath(dir + "/" + name, "/") == name
  {
    var p := dir + "/" + name;
    var i := LastIndex(p, "/");
    assert p[|dir|..|dir| + 1] == "/";
    assert OccursAt(p, "/", |dir|);
    forall k | |dir| < k < |p|
      ensures !OccursAt(p, "/", k)
    {
      assert p[k..k + 1] == [name[k - |dir| - 1]];
    }
    assert i == |dir|;
    assert p[i + 1..] == name;
  }

  // ---------------------------------------------------------------------------------------
  // ExtractAuthString

  /**
   * `HttpAuth`: the scheme that matched, and the credentials of a basic header or the token of a
   * bearer header. Username and password are `string(bytes)` of decoded bytes, kept as bytes.
   */
  datatype HttpAuth = HttpAuth(kind: string, username: seq<byte>, password: seq<byte>, token: string)

  /** How `ExtractAuthString` ends: a value, a 401 error, or a run-time panic. */
  datatype Extraction = Extracted(auth: HttpAuth) | Rejected(err: Fiber.Error) | Panicked

  /** ':' */
  const Colon: byte := 58

  const AuthFormatError := Fiber.Error(Fiber.StatusUnauthorized, "invalid authorize format")

  /** The 401 error for a scheme that is neither basic nor bearer. */
  function AuthTypeError(scheme: string): Fiber.Error {
    Fiber.Error(Fiber.StatusUnauthorized, "invalid authorize type: " + scheme)
  }

  /**
   * The basic credentials as the code reads them: `bytes.Split` on ':' and the first two pieces,
   * so the password stops at a second ':'. Fewer than two pieces is the index panic of line 193.
   */
  function BasicPieces(decoded: seq<byte>, basicScheme: string): (r: Extraction)
    ensures r.Panicked? <==> Colon !in decoded
    ensures r.Extracted? ==>
              var u, p := r.auth.username, r.auth.password;
              var n := |u| + 1 + |p|;
              r.auth == HttpAuth(basicScheme, u, p, "") &&
              Colon !in u && Colon !in p && n <= |decoded| &&
              decoded[..n] == u + [Colon] + p && (n == |decoded| || decoded[n] == Colon)
    ensures !r.Rejected?
  {
    var pieces := Split(decoded, [Colon]);
    if |pieces| < 2 then
      assert Join(pieces, [Colon]) == pieces[0];
      SplitThenJoin(decoded, [Colon]);
      NotFound(pieces[0], Colon);
      Panicked
    else
      SplitFirstTwo(decoded, Colon);
      assert decoded[|pieces[0]|] == Colon;
      Extracted(HttpAuth(basicScheme, pieces[0], pieces[1], ""))
  }

  /**
   * `ExtractAuthString(authStr)`, with the `BasicAuth` and `BearerToken` scheme constants as
   * parameters. The header must split on single spaces into exactly two fields; the scheme is
   * lower-cased and compared with the basic scheme first, then the bearer scheme. A basic header
   * whose payload is not standard base64 panics (line 186 calls `Error()` on a nil error), and so
   * does one whose decoded payload holds no ':' (line 193).
   */
  function ExtractAuthString(authStr: string, basicScheme: string, bearerScheme: string): (r: Extraction)
    ensures |Split(authStr, " ")| != 2 ==> r == Rejected(AuthFormatError)
    ensures r.Panicked? <==>
              var f := Split(authStr, " ");
              |f| == 2 && ToLower(f[0]) == basicScheme &&
              (GoBase64.DecodeString(GoBase64.Std, f[1]).Err? ||
               Colon !in GoBase64.DecodeString(GoBase64.Std, f[1]).value)
    ensures var f := Split(authStr, " ");
            |f| == 2 && ToLower(f[0]) != basicScheme && ToLower(f[0]) == bearerScheme ==>
              r == Extracted(HttpAuth(bearerScheme, [], [], f[1]))
    ensures var f := Split(authStr, " ");
            |f| == 2 && ToLower(f[0]) != basicScheme && ToLower(f[0]) != bearerScheme ==>
              r == Rejected(AuthTypeError(f[0]))
    ensures var f := Split(authStr, " ");
            |f| == 2 && ToLower(f[0]) == basicScheme && GoBase64.DecodeString(GoBase64.Std, f[1]).Ok? ==>
            var decoded := GoBase64.DecodeString(GoBase64.Std, f[1]).value;
            Colon in decoded ==>
              r.Extracted? &&
              var u, p := r.auth.username, r.auth.password;
              var n := |u| + 1 + |p|;
              r.auth == HttpAuth(basicScheme, u, p, "") &&
              Colon !in u && Colon !in p && n <= |decoded| &&
              decoded[..n] == u + [Colon] + p && (n == |decoded| || decoded[n] == Colon)
  {
    var fields := Split(authStr, " ");
    if |fields| != 2 then Rejected(AuthFormatError)
    else
      var scheme := ToLower(fields[0]);
      if scheme == basicScheme then
        match GoBase64.DecodeString(GoBase64.Std, fields[1])
        case Err(_) => Panicked
        case Ok(decoded) => BasicPieces(decoded, basicScheme)
      else if scheme == bearerScheme then Extracted(HttpAuth(bearerScheme, [], [], fields[1]))
      else Rejected(AuthTypeError(fields[0]))
  }

  /**
   * `ExtractAuthString` with the two panics turned into 401 errors: the decoder's own message
   * for a payload that is not base64, and the format error for credentials without ':'.
   */
  function ExtractAuthStringCorrected(authStr: string, basicScheme: string, bearerScheme: string): (r: Extraction)
    ensures !r.Panicked?
    ensures ExtractAuthString(authStr, basicScheme, bearerScheme) != Panicked ==>
              r == ExtractAuthString(authStr, basicScheme, bearerScheme)
    ensures ExtractAuthString(authStr, basicScheme, bearerScheme) == Panicked ==>
              r.Rejected? && r.err.code == Fiber.StatusUnauthorized
  {
    var fields := Split(authStr, " ");
    if |fields| != 2 then Rejected(AuthFormatError)
    else
      var scheme := ToLower(fields[0]);
      if scheme == basicScheme then
        match GoBase64.DecodeString(GoBase64.Std, fields[1])
        case Err(offset) =>
          Rejected(Fiber.Error(Fiber.StatusUnauthorized, GoBase64.CorruptInputMessage(offset)))
        case Ok(decoded) =>
          if Colon !in decoded then Rejected(AuthFormatError) else BasicPieces(decoded, basicScheme)
      else if scheme == bearerScheme then Extracted(HttpAuth(bearerScheme, [], [], fields[1]))
      else Rejected(AuthTypeError(fields[0]))
  }

  /** A scheme word and a payload free of spaces are the two fields of "scheme payload". */
  lemma HeaderFields(scheme: string, payload: string)
    requires ' ' !in scheme && ' ' !in payload
    ensures Split(scheme + " " + payload, " ") == [scheme, payload]
  {
    assert scheme + " " + payload == scheme + [' '] + payload;
    SplitPair(scheme, ' ', payload);
  }

  /** The header a client sends for `user` and `passwd`: the scheme, a space, base64 of "user:passwd". */
  function BasicHeader(scheme: string, user: string, passwd: string): string {
    scheme + " " + GoBase64.EncodeToString(GoBase64.Std, Utf8Encode(user + ":" + passwd))
  }

  /** The credentials bytes of "user:passwd": the two encodings with the ':' byte between them. */
  lemma CredentialBytes(user: string, passwd: string)
    ensures Utf8Encode(user + ":" + passwd) == Utf8Encode(user) + [Colon] + Utf8Encode(passwd)
  {
    Utf8Concat(user + ":", passwd);
    Utf8Concat(user, ":");
  }

  /**
   * The credentials of a basic header built from a user and a password that hold no ':' are
   * extracted as their bytes.
   */
  lemma ExtractBasic(scheme: string, user: string, passwd: string, basicScheme: string, bearerScheme: string)
    requires ' ' !in scheme && ToLower(scheme) == basicScheme
    requires ':' !in user && ':' !in passwd
    ensures ExtractAuthString(BasicHeader(scheme, user, passwd), basicScheme, bearerScheme)
            == Extracted(HttpAuth(basicScheme, Utf8Encode(user), Utf8Encode(passwd), ""))
  {
    var cred := Utf8Encode(user + ":" + passwd);
    var payload := GoBase64.EncodeToString(GoBase64.Std, cred);
    HeaderFields(scheme, payload);
    GoBase64.StringRoundTrip(GoBase64.Std, cred);
    CredentialBytes(user, passwd);
    Utf8AsciiByte(user, ':');
    Utf8AsciiByte(passwd, ':');
    SplitPair(Utf8Encode(user), Colon, Utf8Encode(passwd));
  }

  /** A bearer header hands back its token verbatim. */
  lemma ExtractBearer(scheme: string, token: string, basicScheme: string, bearerScheme: string)
    requires ' ' !in scheme && ' ' !in token
    requires ToLower(scheme) == bearerScheme && bearerScheme != basicScheme
    ensures ExtractAuthString(scheme + " " + token, basicScheme, bearerScheme)
            == Extracted(HttpAuth(bearerScheme, [], [], token))
  {
    HeaderFields(scheme, token);
  }

  /**
   * Well-formed base64 of credentials without ':' (such as "dXNlcg==", which is "user") makes
   * the code as written panic, while the corrected function answers with the format error.
   */
  lemma ExtractWithoutColon(scheme: string, cred: string, basicScheme: string, bearerScheme: string)
    requires ' ' !in scheme && ToLower(scheme) == basicScheme
    requires ':' !in cred
    ensures var h := scheme + " " + GoBase64.EncodeToString(GoBase64.Std, Utf8Encode(cred));
            ExtractAuthString(h, basicScheme, bearerScheme) == Panicked &&
            ExtractAuthStringCorrected(h, basicScheme, bearerScheme) == Rejected(AuthFormatError)
  {
    var payload := GoBase64.EncodeToString(GoBase64.Std, Utf8Encode(cred));
    HeaderFields(scheme, payload);
    GoBase64.StringRoundTrip(GoBase64.Std, Utf8Encode(cred));
    Utf8AsciiByte(cred, ':');
  }
}
