/** The credential extraction of AuthFilter.authenticateByHeader: the
    client credentials of the "Basic" scheme (section 2 of RFC 7617), read
    from the value of the Authorization header.

    The Base64 step is modelled in module Base64. The two other library
    decoders the filter calls are parameters (see Codecs). */
module BasicCredentials {
  import opened Options
  import Base64

  /** The exact, case-sensitive prefix the filter looks for. */
  const BasicPrefix: string := "Basic "

  /** String.startsWith: s is prefix followed by something. */
  predicate StartsWith(s: string, prefix: string): (r: bool)
    ensures r <==> |prefix| <= |s| && s == prefix + s[|prefix|..]
  {
    |prefix| <= |s| && s[..|prefix|] == prefix
  }

  /** String.indexOf(char): the first position of c in s, or -1. */
  function IndexOf(s: string, c: char): (r: int)
    ensures -1 <= r < |s|
    ensures r == -1 <==> c !in s
    ensures 0 <= r ==> s[r] == c && c !in s[..r]
    decreases |s|
  {
    if |s| == 0 then -1
    else if s[0] == c then 0
    else
      var k := IndexOf(s[1..], c);
      if k == -1 then -1
      else
        assert s[..k + 1] == [s[0]] + s[1..][..k];
        k + 1
  }

  /** The text decoders the filter takes from the JDK:
      - utf8 is new String(bytes, StandardCharsets.UTF_8), which never
        fails (malformed input is replaced, not refused);
      - formDecode is URLDecoder.decode(text, "UTF-8"), which is None where
        it throws IllegalArgumentException (a malformed %-escape). */
  datatype Codecs = Codecs(utf8: seq<Base64.byte> -> string, formDecode: string -> Option<string>)

  /** The RuntimeExceptions that authenticateByHeader can throw. */
  datatype Failure = MalformedBase64 | MalformedEscape | SigninRejected

  /** How far one authentication attempt got: nothing was tried, an
      exception was thrown, or a value was produced. */
  datatype Attempt<+T> = NotAttempted | Thrown(failure: Failure) | Found(value: T)

  /** The split of the decoded "user:password" text at its first colon:
      None when there is no colon or when the user part would be empty
      (pos <= 0 in the filter). */
  function SplitAtColon(up: string): (r: Option<(string, string)>)
    ensures r.None? <==> (':' !in up || up[0] == ':')
    ensures r.Some? ==> var (user, password) := r.value;
      |user| > 0 && ':' !in user && up == user + [':'] + password
  {
    var pos := IndexOf(up, ':');
    if pos > 0 then
      assert up == up[..pos] + [':'] + up[pos + 1..];
      Some((up[..pos], up[pos + 1..]))
    else
      None
  }

  /** The split is the inverse of joining a non-empty, colon-free user part
      and any password with one colon: the password keeps all its colons. */
  lemma SplitJoined(user: string, password: string)
    requires |user| > 0 && ':' !in user
    ensures SplitAtColon(user + [':'] + password) == Some((user, password))
  {
    var up := user + [':'] + password;
    IndexOfFirst(user, ':', password);
    assert up[..|user|] == user;
    assert up[|user| + 1..] == password;
  }

  /** The first occurrence of c is found right after a prefix without c. */
  lemma {:induction false} IndexOfFirst(prefix: string, c: char, rest: string)
    requires c !in prefix
    ensures IndexOf(prefix + [c] + rest, c) == |prefix|
    decreases |prefix|
  {
    var s := prefix + [c] + rest;
    if |prefix| > 0 {
      assert s[0] == prefix[0];
      assert s[1..] == prefix[1..] + [c] + rest;
      IndexOfFirst(prefix[1..], c, rest);
    }
  }

  /** The credentials as the header carries them, before form decoding:
      the header must start with "Basic "; the rest is Base64-decoded and
      read as UTF-8, then split at the first colon. The decoder throws
      exactly on the tokens that are not well formed, and credentials are
      found exactly when the decoded text has a non-empty user part. */
  function RawCredentials(header: Option<string>, utf8: seq<Base64.byte> -> string): (r: Attempt<(string, string)>)
    ensures r.Thrown? ==> r.failure == MalformedBase64
    ensures (header.None? || !StartsWith(header.value, BasicPrefix)) ==> r.NotAttempted?
    ensures header.Some? && StartsWith(header.value, BasicPrefix) ==>
      (r.Thrown? <==> !Base64.WellFormed(header.value[|BasicPrefix|..]))
    ensures r.Found? <==>
      && header.Some? && StartsWith(header.value, BasicPrefix)
      && var decoded := Base64.Decode(header.value[|BasicPrefix|..]);
      && decoded.Some?
      && var up := utf8(decoded.value);
      && ':' in up && up[0] != ':'
    ensures r.Found? ==>
      && header.Some? && StartsWith(header.value, BasicPrefix)
      && var decoded := Base64.Decode(header.value[|BasicPrefix|..]);
      && decoded.Some?
      && var (user, password) := r.value;
      && |user| > 0 && ':' !in user
      && utf8(decoded.value) == user + [':'] + password
  {
    if header.Some? && StartsWith(header.value, BasicPrefix) then
      var token := header.value[|BasicPrefix|..];
      Base64.DecodeSucceedsIffWellFormed(token);
      match Base64.Decode(token)
      case None => Thrown(MalformedBase64)
      case Some(bytes) =>
        match SplitAtColon(utf8(bytes))
        case None => NotAttempted
        case Some(pair) => Found(pair)
    else
      NotAttempted
  }

  /** The email and password authenticateByHeader hands to signin: each half
      of the raw credentials form-decoded on its own; a malformed escape in
      either half is thrown. */
  function ExtractCredentials(header: Option<string>, codecs: Codecs): (r: Attempt<(string, string)>)
    ensures var raw := RawCredentials(header, codecs.utf8);
      && (r.NotAttempted? <==> raw.NotAttempted?)
      && (raw.Thrown? ==> r == raw)
      && (raw.Found? ==>
            (r.Found? <==> codecs.formDecode(raw.value.0).Some? && codecs.formDecode(raw.value.1).Some?))
      && (raw.Found? && !r.Found? ==> r == Thrown(MalformedEscape))
    ensures r.Found? ==>
      var raw := RawCredentials(header, codecs.utf8);
      && raw.Found?
      && codecs.formDecode(raw.value.0) == Some(r.value.0)
      && codecs.formDecode(raw.value.1) == Some(r.value.1)
  {
    match RawCredentials(header, codecs.utf8)
    case NotAttempted => NotAttempted
    case Thrown(f) => Thrown(f)
    case Found((user, password)) =>
      match codecs.formDecode(user)
      case None => Thrown(MalformedEscape)
      case Some(email) =>
        match codecs.formDecode(password)
        case None => Thrown(MalformedEscape)
        case Some(pass) => Found((email, pass))
  }

  /** A header "Basic " + token throws a Base64 error exactly when the token
      is not well formed, whatever the other decoders do. */
  lemma MalformedTokenThrows(token: string, codecs: Codecs)
    ensures ExtractCredentials(Some(BasicPrefix + token), codecs) == Thrown(MalformedBase64)
            <==> !Base64.WellFormed(token)
  {
    var header := BasicPrefix + token;
    assert StartsWith(header, BasicPrefix);
    assert header[|BasicPrefix|..] == token;
    var raw := RawCredentials(Some(header), codecs.utf8);
    assert raw.Thrown? <==> !Base64.WellFormed(token);
  }

  /** Padding is optional: the unpadded token "dTpwdw" carries the octets of
      "u:pw" and yields the user "u" with the password "pw". */
  lemma UnpaddedTokenAccepted(utf8: seq<Base64.byte> -> string)
    requires utf8([117, 58, 112, 119]) == "u:pw"
    ensures RawCredentials(Some("Basic dTpwdw"), utf8) == Found(("u", "pw"))
  {
    var header := "Basic dTpwdw";
    assert StartsWith(header, BasicPrefix);
    assert header[|BasicPrefix|..] == "dTpwdw";
    var q, last := "dTpw", "dw";
    assert "dTpwdw" == q + last;
    assert Base64.AllBase64Chars(q);
    assert ("dTpwdw")[..4] == q && ("dTpwdw")[4..] == last;
    assert Base64.AllBase64Chars(("dTpwdw")[..4]);
    Base64.DecodeUnit("dTpwdw");
    assert Base64.Decode(last) == Some([119]);
    var d := Base64.DecodeQuantum(q[0], q[1], q[2], q[3]);
    assert d == [117, 58, 112];
    assert d + [119] == [117, 58, 112, 119];
    assert Base64.Decode("dTpwdw") == Some([117, 58, 112, 119]);
    assert "u:pw" == "u" + [':'] + "pw";
    SplitJoined("u", "pw");
  }

  /** Decoded text without a colon, or with an empty user part, is ignored
      without an exception. */
  lemma NoUserPartIgnored(token: string, codecs: Codecs)
    requires Base64.Decode(token).Some?
    requires var up := codecs.utf8(Base64.Decode(token).value); ':' !in up || up[0] == ':'
    ensures ExtractCredentials(Some(BasicPrefix + token), codecs) == NotAttempted
  {
    var header := BasicPrefix + token;
    assert StartsWith(header, BasicPrefix);
    assert header[|BasicPrefix|..] == token;
  }

  /** Round trip: a client that Base64-encodes the UTF-8 bytes of
      "user:password" (user non-empty and colon-free) gets exactly that
      pair back, before form decoding. */
  lemma {:induction false} RawCredentialsRoundTrip(user: string, password: string, bytes: seq<Base64.byte>, utf8: seq<Base64.byte> -> string)
    requires |user| > 0 && ':' !in user
    requires utf8(bytes) == user + [':'] + password
    ensures RawCredentials(Some(BasicPrefix + Base64.Encode(bytes)), utf8) == Found((user, password))
  {
    var header := BasicPrefix + Base64.Encode(bytes);
    assert StartsWith(header, BasicPrefix);
    assert header[|BasicPrefix|..] == Base64.Encode(bytes);
    Base64.DecodeEncode(bytes);
    SplitJoined(user, password);
  }

  /** The same round trip for a client that leaves the padding off (as
      Base64.getEncoder().withoutPadding() does): the decoder accepts the
      shorter token and the pair comes back unchanged. */
  lemma RawCredentialsUnpaddedRoundTrip(user: string, password: string, bytes: seq<Base64.byte>, utf8: seq<Base64.byte> -> string)
    requires |user| > 0 && ':' !in user
    requires utf8(bytes) == user + [':'] + password
    ensures RawCredentials(Some(BasicPrefix + Base64.Unpadded(Base64.Encode(bytes))), utf8) == Found((user, password))
  {
    var token := Base64.Unpadded(Base64.Encode(bytes));
    var header := BasicPrefix + token;
    assert StartsWith(header, BasicPrefix);
    assert header[|BasicPrefix|..] == token;
    Base64.DecodeUnpaddedEncode(bytes);
    SplitJoined(user, password);
  }

  /** Each half is form-decoded on its own, and the decoded halves are the
      credentials; a malformed escape in either half is thrown. */
  lemma HalvesDecodedSeparately(user: string, password: string, bytes: seq<Base64.byte>, codecs: Codecs)
    requires |user| > 0 && ':' !in user
    requires codecs.utf8(bytes) == user + [':'] + password
    ensures var r := ExtractCredentials(Some(BasicPrefix + Base64.Encode(bytes)), codecs);
      match (codecs.formDecode(user), codecs.formDecode(password))
      case (Some(email), Some(pass)) => r == Found((email, pass))
      case _ => r == Thrown(MalformedEscape)
  {
    RawCredentialsRoundTrip(user, password, bytes, codecs.utf8);
  }
}
