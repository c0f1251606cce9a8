/**
 * Bearer-token handling of the backend (backend/core/auth.py): the clean-up of
 * the credentials string, the three-part shape check of the JSON Web Signature
 * compact serialisation (section 7.1 of RFC 7515), the search of the key set
 * for the token's key id, and the construction of the user's claims.
 *
 * Header decoding and signature verification belong to an external JWT library;
 * they are parameters here.
 */
module TokenAuth {
  import opened Wrappers

  // ---------------------------------------------------------------------------
  // Characters and stripping
  // ---------------------------------------------------------------------------

  /** Python's `str.isspace()`: the code points a bare `strip()` removes. */
  predicate IsSpace(c: char) {
    || ('\t' <= c <= '\r')                  // tab, line feed, vertical tab, form feed, carriage return
    || ('\U{1c}' <= c <= '\U{1f}')          // file, group, record and unit separators
    || c == ' ' || c == '\U{85}' || c == '\U{a0}' || c == '\U{1680}'
    || ('\U{2000}' <= c <= '\U{200a}')
    || c == '\U{2028}' || c == '\U{2029}' || c == '\U{202f}' || c == '\U{205f}' || c == '\U{3000}'
  }

  /** The character sets `strip` is called with: white space, or one given character. */
  datatype CharClass = WhiteSpace | Only(ch: char)

  predicate In(c: char, k: CharClass) {
    match k
    case WhiteSpace => IsSpace(c)
    case Only(ch) => c == ch
  }

  /** How many characters at the start of `s` are of class `k`. */
  function LeadCount(s: string, k: CharClass): (n: nat)
    ensures n <= |s|
    ensures forall i :: 0 <= i < n ==> In(s[i], k)
    ensures n < |s| ==> !In(s[n], k)
  {
    if s != [] && In(s[0], k) then 1 + LeadCount(s[1..], k) else 0
  }

  /** How many characters at the end of `s` are of class `k`. */
  function TrailCount(s: string, k: CharClass): (n: nat)
    ensures n <= |s|
    ensures forall i :: |s| - n <= i < |s| ==> In(s[i], k)
    ensures n < |s| ==> !In(s[|s| - n - 1], k)
  {
    if s != [] && In(s[|s| - 1], k) then 1 + TrailCount(s[..|s| - 1], k) else 0
  }

  /** Every character of `s` outside `s[i..j]` is of class `k`. */
  ghost predicate Removed(s: string, i: int, j: int, k: CharClass)
    requires 0 <= i <= j <= |s|
  {
    (forall n :: 0 <= n < i ==> In(s[n], k)) && (forall n :: j <= n < |s| ==> In(s[n], k))
  }

  /**
   * Python's `strip`: removes the leading, then the trailing characters of
   * class `k`. The result neither begins nor ends with one.
   */
  function Strip(s: string, k: CharClass): (r: string)
    ensures |r| <= |s|
    ensures r == [] || (!In(r[0], k) && !In(r[|r| - 1], k))
  {
    var t := s[LeadCount(s, k)..];
    t[..|t| - TrailCount(t, k)]
  }

  /** The result of `Strip` is the part of `s` right after its leading run. */
  lemma StripIsSlice(s: string, k: CharClass)
    ensures LeadCount(s, k) + |Strip(s, k)| <= |s|
    ensures Strip(s, k) == s[LeadCount(s, k)..LeadCount(s, k) + |Strip(s, k)|]
  {
  }

  /** A run of class `k` at the end of a suffix `t` of `s` is a run at the end of `s`. */
  lemma SuffixTail(s: string, a: nat, m: nat, k: CharClass)
    requires a <= |s| && m <= |s| - a
    requires forall i :: |s[a..]| - m <= i < |s[a..]| ==> In(s[a..][i], k)
    ensures forall n :: |s| - m <= n < |s| ==> In(s[n], k)
  {
    forall n | |s| - m <= n < |s|
      ensures In(s[n], k)
    {
      assert s[n] == s[a..][n - a];
    }
  }

  /** Every character after the result of `Strip` is of the class. */
  lemma StripTailRemoved(s: string, k: CharClass)
    ensures LeadCount(s, k) + |Strip(s, k)| <= |s|
    ensures forall n :: LeadCount(s, k) + |Strip(s, k)| <= n < |s| ==> In(s[n], k)
  {
    var a := LeadCount(s, k);
    var m := TrailCount(s[a..], k);
    assert |Strip(s, k)| == |s| - a - m;
    SuffixTail(s, a, m, k);
  }

  /**
   * Only characters of the class are removed: the result is the part of `s`
   * after its leading run, and every character outside it is of the class.
   */
  lemma StripRemovesOnlyClass(s: string, k: CharClass)
    ensures var a := LeadCount(s, k); var r := Strip(s, k);
      a + |r| <= |s| && r == s[a..a + |r|] && Removed(s, a, a + |r|, k)
  {
    StripIsSlice(s, k);
    StripTailRemoved(s, k);
  }

  /** A string that neither begins nor ends with the class is left as it is. */
  lemma StripUnchanged(s: string, k: CharClass)
    requires s == [] || (!In(s[0], k) && !In(s[|s| - 1], k))
    ensures Strip(s, k) == s
  {
    assert LeadCount(s, k) == 0;
    assert TrailCount(s, k) == 0;
    assert s[0..][..|s|] == s;
  }

  /** Stripping twice removes no more than stripping once. */
  lemma StripIdempotent(s: string, k: CharClass)
    ensures Strip(Strip(s, k), k) == Strip(s, k)
  {
    StripUnchanged(Strip(s, k), k);
  }

  /** One character of the class on each side of `m` is removed, and `m` is kept. */
  lemma StripEnclosed(c: char, m: string, k: CharClass)
    requires In(c, k) && m != [] && !In(m[0], k) && !In(m[|m| - 1], k)
    ensures Strip([c] + m + [c], k) == m
  {
    var s := [c] + m + [c];
    assert s[1..] == m + [c];
    assert LeadCount(s[1..], k) == 0;
    assert LeadCount(s, k) == 1;
    assert (m + [c])[..|m|] == m;
    assert TrailCount(m, k) == 0;
    assert TrailCount(m + [c], k) == 1;
  }

  // ---------------------------------------------------------------------------
  // The "Bearer " prefix and the clean-up chain
  // ---------------------------------------------------------------------------

  const BearerPrefix: string := "Bearer "

  /**
   * Drops one leading "Bearer " (the header form of section 2.1 of RFC 6750,
   * matched case-sensitively and without leading blanks); anything else is
   * left alone.
   */
  function RemoveBearer(s: string): (r: string)
    ensures BearerPrefix <= s <==> BearerPrefix + r == s
    ensures !(BearerPrefix <= s) ==> r == s
  {
    if BearerPrefix <= s then s[|BearerPrefix|..] else s
  }

  /** The prefix is removed once only: a doubled "Bearer Bearer " keeps one. */
  lemma RemoveBearerOnce(t: string)
    ensures RemoveBearer(BearerPrefix + t) == t
    ensures RemoveBearer(BearerPrefix + BearerPrefix + t) == BearerPrefix + t
  {
    assert BearerPrefix <= BearerPrefix + t;
    assert BearerPrefix <= BearerPrefix + BearerPrefix + t;
    assert (BearerPrefix + BearerPrefix + t)[|BearerPrefix|..] == BearerPrefix + t;
  }

  /**
   * The token after clean-up: the "Bearer " prefix is removed first, then
   * white space, then single quotes, then double quotes are stripped from
   * both ends. The result never begins or ends with a double quote.
   */
  function Clean(credentials: string): (r: string)
    ensures r == [] || (r[0] != '"' && r[|r| - 1] != '"')
    ensures |r| <= |credentials|
  {
    var s0 := RemoveBearer(credentials);
    var s1 := Strip(s0, WhiteSpace);
    var s2 := Strip(s1, Only('\''));
    Strip(s2, Only('"'))
  }

  /** The characters the clean-up strips: white space and both kinds of quote. */
  predicate Padding(c: char) {
    IsSpace(c) || c == '\'' || c == '"'
  }

  /** `r` is `u[i..j]`, and every character of `u` outside it is padding. */
  ghost predicate PaddedSlice(u: string, r: string, i: int, j: int) {
    && 0 <= i <= j <= |u|
    && r == u[i..j]
    && forall n :: 0 <= n < |u| && !(i <= n < j) ==> Padding(u[n])
  }

  /** Stripping one of the three classes from a padded slice leaves a narrower padded slice. */
  lemma StripPadded(u: string, r: string, i: int, j: int, k: CharClass) returns (i': int, j': int)
    requires PaddedSlice(u, r, i, j)
    requires k == WhiteSpace || k == Only('\'') || k == Only('"')
    ensures i <= i' <= j' <= j
    ensures PaddedSlice(u, Strip(r, k), i', j')
  {
    var a := LeadCount(r, k);
    var m := |Strip(r, k)|;
    StripRemovesOnlyClass(r, k);
    i', j' := i + a, i + a + m;
    assert Strip(r, k) == u[i'..j'];
    forall n | 0 <= n < |u| && !(i' <= n < j')
      ensures Padding(u[n])
    {
      if i <= n < j {
        assert u[n] == r[n - i];
        assert In(r[n - i], k);
      }
    }
  }

  /**
   * The clean-up removes the "Bearer " prefix and otherwise only padding: its
   * result is a contiguous part of what follows the prefix, and every
   * character of that outside the result is white space or a quote.
   */
  lemma CleanRemovesOnlyPadding(credentials: string)
    ensures var u := RemoveBearer(credentials);
      exists i, j :: PaddedSlice(u, Clean(credentials), i, j)
  {
    var u := RemoveBearer(credentials);
    assert PaddedSlice(u, u, 0, |u|) by { assert u[0..|u|] == u; }
    var s1 := Strip(u, WhiteSpace);
    var i1, j1 := StripPadded(u, u, 0, |u|, WhiteSpace);
    var s2 := Strip(s1, Only('\''));
    var i2, j2 := StripPadded(u, s1, i1, j1, Only('\''));
    var i3, j3 := StripPadded(u, s2, i2, j2, Only('"'));
    assert Clean(credentials) == Strip(s2, Only('"'));
  }

  /** Stripping is applied once per kind, so a quote of the other kind can survive. */
  lemma CleanKeepsInnerSingleQuote()
    ensures Clean("\"'abc'\"") == "'abc'"
  {
    var s := "\"'abc'\"";
    assert RemoveBearer(s) == s by { assert s[0] != BearerPrefix[0]; }
    StripUnchanged(s, WhiteSpace);
    StripUnchanged(s, Only('\''));
    assert s == ['"'] + "'abc'" + ['"'];
    StripEnclosed('"', "'abc'", Only('"'));
  }

  // ---------------------------------------------------------------------------
  // Splitting on '.'
  // ---------------------------------------------------------------------------

  /** Number of occurrences of `c` in `s`. */
  function Count(s: string, c: char): (n: nat)
    ensures n <= |s|
  {
    if s == [] then 0 else (if s[0] == c then 1 else 0) + Count(s[1..], c)
  }

  /** `Count` is the multiplicity of `c` in `s`. */
  lemma {:induction false} CountIsMultiplicity(s: string, c: char)
    ensures Count(s, c) == multiset(s)[c]
  {
    if s != [] {
      CountIsMultiplicity(s[1..], c);
      assert s == [s[0]] + s[1..];
    }
  }

  /** Python's `s.split(sep)` for a one-character separator. */
  function Split(s: string, sep: char): (parts: seq<string>)
    ensures |parts| == Count(s, sep) + 1
    ensures forall i :: 0 <= i < |parts| ==> sep !in parts[i]
  {
    if s == [] then [[]]
    else
      var rest := Split(s[1..], sep);
      if s[0] == sep then [[]] + rest
      else [[s[0]] + rest[0]] + rest[1..]
  }

  /** Joins the parts back with the separator between them. */
  function Join(parts: seq<string>, sep: char): (s: string)
    requires |parts| > 0
  {
    if |parts| == 1 then parts[0] else parts[0] + [sep] + Join(parts[1..], sep)
  }

  /** Splitting loses nothing: joining the parts gives back the string. */
  lemma {:induction false} JoinSplit(s: string, sep: char)
    ensures Join(Split(s, sep), sep) == s
  {
    if s != [] {
      var rest := Split(s[1..], sep);
      var parts := Split(s, sep);
      JoinSplit(s[1..], sep);
      assert Join(rest, sep) == s[1..];
      assert s == [s[0]] + s[1..];
      if s[0] == sep {
        assert parts == [[]] + rest;
        assert parts[1..] == rest;
        assert Join(parts, sep) == [] + [sep] + Join(rest, sep);
      } else {
        assert parts == [[s[0]] + rest[0]] + rest[1..];
        if |rest| == 1 {
          assert Join(rest, sep) == rest[0];
          assert Join(parts, sep) == [s[0]] + rest[0];
        } else {
          assert parts[1..] == rest[1..];
          assert Join(rest, sep) == rest[0] + [sep] + Join(rest[1..], sep);
          assert Join(parts, sep) == ([s[0]] + rest[0]) + [sep] + Join(rest[1..], sep);
        }
      }
    }
  }

  /** The shape check: splitting on '.' gives exactly three parts. */
  function ThreeParts(token: string): (ok: bool)
    ensures ok <==> Count(token, '.') == 2
  {
    |Split(token, '.')| == 3
  }

  /** The shape check stated on the characters themselves: exactly two dots. */
  lemma ThreePartsIffTwoDots(token: string)
    ensures ThreeParts(token) <==> multiset(token)['.'] == 2
  {
    CountIsMultiplicity(token, '.');
  }

  // ---------------------------------------------------------------------------
  // Key search
  // ---------------------------------------------------------------------------

  /** One entry of the key set; `kid` is None when the entry has no "kid" member. */
  datatype Jwk = Jwk(kid: Option<string>, material: string)

  /** The three ways the search ends. */
  datatype KeyLookup =
    | Found(key: Jwk)
    | KidMissing   // an entry before any match has no "kid": KeyError
    | NotFound     // Exception("Public key not Found")

  /** No entry before index `n` has a "kid", and none of them is `kid`. */
  ghost predicate NoMatchBefore(keys: seq<Jwk>, kid: string, n: int)
    requires 0 <= n <= |keys|
  {
    forall j :: 0 <= j < n ==> keys[j].kid.Some? && keys[j].kid.value != kid
  }

  /** The search of the key set, entry by entry in order. */
  function FindKey(keys: seq<Jwk>, kid: string): (r: KeyLookup)
    ensures r.Found? ==> exists i :: 0 <= i < |keys| && keys[i] == r.key && keys[i].kid == Some(kid) && NoMatchBefore(keys, kid, i)
    ensures r.KidMissing? ==> exists i :: 0 <= i < |keys| && keys[i].kid.None? && NoMatchBefore(keys, kid, i)
    ensures r.NotFound? <==> NoMatchBefore(keys, kid, |keys|)
  {
    if keys == [] then NotFound
    else if keys[0].kid.None? then KidMissing
    else if keys[0].kid.value == kid then Found(keys[0])
    else
      var r := FindKey(keys[1..], kid);
      assert r.Found? ==> exists i :: 1 <= i < |keys| && keys[i] == r.key && keys[i].kid == Some(kid) && NoMatchBefore(keys, kid, i) by {
        if r.Found? {
          var i :| 0 <= i < |keys[1..]| && keys[1..][i] == r.key && keys[1..][i].kid == Some(kid) && NoMatchBefore(keys[1..], kid, i);
          assert NoMatchBefore(keys, kid, i + 1);
        }
      }
      assert r.KidMissing? ==> exists i :: 1 <= i < |keys| && keys[i].kid.None? && NoMatchBefore(keys, kid, i) by {
        if r.KidMissing? {
          var i :| 0 <= i < |keys[1..]| && keys[1..][i].kid.None? && NoMatchBefore(keys[1..], kid, i);
          assert NoMatchBefore(keys, kid, i + 1);
        }
      }
      assert NoMatchBefore(keys, kid, |keys|) <==> NoMatchBefore(keys[1..], kid, |keys| - 1);
      r
  }

  /** The first matching entry is returned whatever other entries share its `kid`. */
  lemma {:induction false} FindKeyFirst(keys: seq<Jwk>, kid: string, i: nat)
    requires i < |keys| && keys[i].kid == Some(kid) && NoMatchBefore(keys, kid, i)
    ensures FindKey(keys, kid) == Found(keys[i])
  {
    if i > 0 {
      assert NoMatchBefore(keys[1..], kid, i - 1);
      FindKeyFirst(keys[1..], kid, i - 1);
    }
  }

  /** `get_public_key`: loops over the key set and returns at the first match. */
  method GetPublicKey(keys: seq<Jwk>, kid: string) returns (r: KeyLookup)
    ensures r == FindKey(keys, kid)
  {
    var i := 0;
    while i < |keys|
      invariant 0 <= i <= |keys|
      invariant FindKey(keys[i..], kid) == FindKey(keys, kid)
    {
      assert keys[i..][1..] == keys[i + 1..];
      var key := keys[i];
      match key.kid {
        case None =>
          return KidMissing;
        case Some(k) =>
          if k == kid {
            return Found(key);
          }
      }
      i := i + 1;
    }
    r := NotFound;
  }

  // ---------------------------------------------------------------------------
  // validate_token
  // ---------------------------------------------------------------------------

  /** What the JWT library reports: a value, or one of its own errors. */
  datatype Jose<T> = Decoded(value: T) | JoseError(message: string)

  /** The unverified header; `kid` is None when the header has no "kid". */
  datatype Header = Header(kid: Option<string>)

  /** The verified payload; a member is None when absent. */
  datatype Payload = Payload(sub: Option<string>, permissions: Option<seq<string>>)

  datatype UserClaims = UserClaims(sub: string, permissions: seq<string>)

  /** Python exceptions that escape the `except` clause. */
  datatype Raised =
    | ValueError(message: string)
    | KeyError(key: string)
    | PlainException(message: string)

  datatype TokenOutcome =
    | Accepted(claims: UserClaims)
    | Http401(detail: string)   // a library error converted to HTTPException(401)
    | Uncaught(error: Raised)   // propagates out of the dependency

  /** Builds the claims: `sub` must be present; `permissions` defaults to []. */
  function ClaimsOf(p: Payload): (r: TokenOutcome)
    ensures r.Accepted? <==> p.sub.Some?
    ensures r.Accepted? ==> r.claims.sub == p.sub.value
    ensures r.Accepted? ==> r.claims.permissions == (if p.permissions.Some? then p.permissions.value else [])
    ensures !r.Accepted? ==> r == Uncaught(KeyError("sub"))
  {
    match p.sub
    case None => Uncaught(KeyError("sub"))
    case Some(sub) => Accepted(UserClaims(sub, p.permissions.GetOr([])))
  }

  /** The key the header names, when the header decodes and names one that is in the key set. */
  ghost predicate KeyFor(token: string, header: string -> Jose<Header>, keys: seq<Jwk>, key: Jwk) {
    && header(token).Decoded?
    && header(token).value.kid.Some?
    && FindKey(keys, header(token).value.kid.value) == Found(key)
  }

  /** The header names `key` and the payload decoded with it carries a subject. */
  ghost predicate AcceptedWith(token: string, header: string -> Jose<Header>, keys: seq<Jwk>, decode: (string, Jwk) -> Jose<Payload>, key: Jwk) {
    KeyFor(token, header, keys, key) && decode(token, key).Decoded? && decode(token, key).value.sub.Some?
  }

  /**
   * What `validate_token` does with the cleaned token: the shape check, the
   * header, the key search, the verified decode and the claims, in that order;
   * only the library's own errors become a 401.
   */
  function CheckToken(
    token: string,
    header: string -> Jose<Header>,
    keys: seq<Jwk>,
    decode: (string, Jwk) -> Jose<Payload>): (r: TokenOutcome)
    ensures r == Uncaught(ValueError("Invalid JWT format")) <==> Count(token, '.') != 2
    ensures r.Accepted? <==> Count(token, '.') == 2 && exists key :: AcceptedWith(token, header, keys, decode, key)
    ensures r.Accepted? ==> exists key :: KeyFor(token, header, keys, key) && r == ClaimsOf(decode(token, key).value)
    ensures r.Http401? <==> Count(token, '.') == 2 && (header(token).JoseError?
                              || exists key :: KeyFor(token, header, keys, key) && decode(token, key).JoseError?)
    ensures Count(token, '.') == 2 && header(token).JoseError? ==> r == Http401(header(token).message)
    ensures Count(token, '.') == 2 && header(token).Decoded? && header(token).value.kid.None? ==> r == Uncaught(KeyError("kid"))
    ensures Count(token, '.') == 2 && header(token).Decoded? && header(token).value.kid.Some? ==>
              (FindKey(keys, header(token).value.kid.value).KidMissing? ==> r == Uncaught(KeyError("kid")))
              && (FindKey(keys, header(token).value.kid.value).NotFound? ==> r == Uncaught(PlainException("Public key not Found")))
    ensures forall key :: Count(token, '.') == 2 && KeyFor(token, header, keys, key) ==>
              (decode(token, key).JoseError? ==> r == Http401(decode(token, key).message))
              && (decode(token, key).Decoded? && decode(token, key).value.sub.None? ==> r == Uncaught(KeyError("sub")))
  {
    if !ThreeParts(token) then Uncaught(ValueError("Invalid JWT format"))
    else match header(token)
      case JoseError(m) => Http401(m)
      case Decoded(h) =>
        match h.kid
        case None => Uncaught(KeyError("kid"))
        case Some(kid) =>
          match FindKey(keys, kid)
          case KidMissing => Uncaught(KeyError("kid"))
          case NotFound => Uncaught(PlainException("Public key not Found"))
          case Found(key) =>
            assert KeyFor(token, header, keys, key);
            assert forall k :: KeyFor(token, header, keys, k) ==> k == key;
            match decode(token, key)
            case JoseError(m) => Http401(m)
            case Decoded(payload) =>
              assert payload.sub.Some? ==> AcceptedWith(token, header, keys, decode, key);
              assert payload.sub.None? ==> forall k :: !AcceptedWith(token, header, keys, decode, k);
              ClaimsOf(payload)
  }

  /** The outcome of `validate_token` on the credentials string as received. */
  function TokenDecision(
    credentials: string,
    header: string -> Jose<Header>,
    keys: seq<Jwk>,
    decode: (string, Jwk) -> Jose<Payload>): (r: TokenOutcome)
  {
    CheckToken(Clean(credentials), header, keys, decode)
  }

  /** A malformed token is never turned into a 401: it escapes as ValueError. */
  lemma MalformedIsNot401(credentials: string, header: string -> Jose<Header>, keys: seq<Jwk>, decode: (string, Jwk) -> Jose<Payload>)
    requires !ThreeParts(Clean(credentials))
    ensures TokenDecision(credentials, header, keys, decode) == Uncaught(ValueError("Invalid JWT format"))
  {
  }

  /** The steps of `validate_token` after clean-up, with the key search as a loop. */
  method CheckCleaned(
    token: string,
    header: string -> Jose<Header>,
    keys: seq<Jwk>,
    decode: (string, Jwk) -> Jose<Payload>) returns (r: TokenOutcome)
    ensures r == CheckToken(token, header, keys, decode)
  {
    var parts := Split(token, '.');
    if |parts| != 3 {
      return Uncaught(ValueError("Invalid JWT format"));
    }
    var h := header(token);
    if h.JoseError? {
      return Http401(h.message);
    }
    if h.value.kid.None? {
      return Uncaught(KeyError("kid"));
    }
    var lookup := GetPublicKey(keys, h.value.kid.value);
    match lookup {
      case KidMissing =>
        return Uncaught(KeyError("kid"));
      case NotFound =>
        return Uncaught(PlainException("Public key not Found"));
      case Found(key) =>
        var payload := decode(token, key);
        if payload.JoseError? {
          return Http401(payload.message);
        }
        r := ClaimsOf(payload.value);
    }
  }

  /** The credentials object of the Bearer dependency, rewritten in place. */
  class Credentials {
    var credentials: string

    constructor (credentials: string)
      ensures this.credentials == credentials
    {
      this.credentials := credentials;
    }
  }

  /**
   * `validate_token`: rewrites the credentials field step by step, checks the
   * shape, looks the key up and builds the claims.
   */
  method ValidateToken(
    c: Credentials,
    header: string -> Jose<Header>,
    keys: seq<Jwk>,
    decode: (string, Jwk) -> Jose<Payload>) returns (r: TokenOutcome)
    modifies c
    ensures c.credentials == Clean(old(c.credentials))
    ensures r == TokenDecision(old(c.credentials), header, keys, decode)
  {
    if BearerPrefix <= c.credentials {
      c.credentials := c.credentials[|BearerPrefix|..];
    }
    c.credentials := Strip(Strip(Strip(c.credentials, WhiteSpace), Only('\'')), Only('"'));
    assert c.credentials == Clean(old(c.credentials));
    r := CheckCleaned(c.credentials, header, keys, decode);
  }
}
