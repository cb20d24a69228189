# HTTP Basic sign-in filter

This project models `AuthFilter`, the servlet filter inside
`AuthFilterRegistrationBean`. For each request the filter:

1. reads the `Authorization` header;
2. if the header starts with the exact, case-sensitive text `"Basic "`, decodes
   the rest of it with the basic Base64 decoder (section 4 of RFC 4648) and
   reads the octets as UTF-8;
3. splits that text at its first `':'`, and gives up quietly when there is
   no colon or when the user part would be empty;
4. form-URL-decodes each half and calls `userService.signin(email, password)`;
5. stores the user in the session under `UserController.KEY_USER`
   (`"__user__"`), creating the session if the request had none;
6. catches any `RuntimeException` thrown on the way, and in every case calls
   the filter chain once with the same request and response.

This is the client-credentials format of the "Basic" scheme in section 2 of
RFC 7617. Section 2.1 of RFC 7235 makes scheme names case-insensitive, but
the filter compares the prefix exactly ("basic " or "BASIC " is ignored), and
the model does the same.

Files:

- `options.dfy`: the `Option` type.
- `base64.dfy` (module `Base64`): the decoder that `Base64.getDecoder()`
  provides, and the padded encoder a client uses. The decoder accepts the 64
  alphabet characters. Padding is optional, but padding that is present must
  complete the last 4-character unit. A lone last character is refused, and
  the unused low bits of a short last unit are ignored. `WellFormed` states
  which inputs are accepted without mentioning the decoder, and
  `DecodeSucceedsIffWellFormed` proves the two agree.
- `basic_credentials.dfy` (module `BasicCredentials`): the pure steps 1–4 of
  `authenticateByHeader`, as `RawCredentials` (before form decoding) and
  `ExtractCredentials` (after it). Each thrown exception becomes
  `Attempt.Thrown`, and "nothing to do" becomes `Attempt.NotAttempted`.
- `auth_filter.dfy` (module `AuthFilter`): sign-in and the session write as
  the pure `Authenticate` and `SessionAfter`. It also has classes for the
  servlet objects the filter touches (`Session`, `Request`, `FilterChain`)
  and the class `AuthFilter`. Its methods `AuthenticateByHeader` and
  `DoFilter` follow the Java statement by statement and are proved against
  `Authenticate` and `SessionAfter`.

The two other library decoders are parameters of the model (`Codecs`):

- `new String(bytes, UTF_8)` (`utf8`) is total, because the JDK replaces
  malformed input instead of refusing it.
- `URLDecoder.decode(s, "UTF-8")` (`formDecode`) returns `None` where it
  would throw.

`userService.signin` is a parameter `(string, string) -> Option<User>`.
`None` stands for the exception it throws on bad credentials.

## Model

| member | source | states |
|---|---|---|
| `Base64.SixBits` | src/main/java/com/self/learnjava/web/AuthFilterRegistrationBean.java:72 | each alphabet character stands for a 6-bit value, and encoding that value gives the character back |
| `Base64.SixBitsOfCharOf` | src/main/java/com/self/learnjava/web/AuthFilterRegistrationBean.java:72 | the alphabet is a bijection: decoding the character of a 6-bit value gives the value back |
| `Base64.DecodeSucceedsIffWellFormed` | src/main/java/com/self/learnjava/web/AuthFilterRegistrationBean.java:72 | the decoder accepts the token exactly when it is alphabet characters, optionally followed by padding that completes the last unit, and does not end in a lone character; it throws on every other token |
| `Base64.DecodedInputAlphabet` | src/main/java/com/self/learnjava/web/AuthFilterRegistrationBean.java:72 | an accepted token contains only alphabet characters and `=` |
| `Base64.Decode` | src/main/java/com/self/learnjava/web/AuthFilterRegistrationBean.java:72 | `Base64.getDecoder().decode(token)`: an accepted token decodes to 3 octets per 4 characters of its unpadded length, rounded down; which tokens are accepted, and the round trip, are the lemmas below |
| `Base64.DecodeFinalUnit` | src/main/java/com/self/learnjava/web/AuthFilterRegistrationBean.java:72 | a short last unit (`xx`, `xxx`, `xx==`, `xxx=`) decodes to 1 or 2 octets, as many as its unpadded length carries |
| `Base64.DecodeEncode` | src/main/java/com/self/learnjava/web/AuthFilterRegistrationBean.java:72 | round trip: decoding the padded encoding of any octet string gives back that octet string |
| `Base64.DecodeUnpadded` | src/main/java/com/self/learnjava/web/AuthFilterRegistrationBean.java:72 | padding carries no data: an accepted token decodes to the same octets with its padding removed |
| `Base64.DecodeUnpaddedEncode` | src/main/java/com/self/learnjava/web/AuthFilterRegistrationBean.java:72 | round trip without padding: the encoding of any octet string with its `=` removed decodes back to that octet string |
| `Base64.DecodeIgnoresUnusedBitsOfOneOctet` | src/main/java/com/self/learnjava/web/AuthFilterRegistrationBean.java:72 | a last unit `xx` (after any whole units) decodes the same whatever the low four bits of its second character: only its top two bits reach the octet |
| `Base64.DecodeIgnoresUnusedBitsOfTwoOctets` | src/main/java/com/self/learnjava/web/AuthFilterRegistrationBean.java:72 | a last unit `xxx` (after any whole units) decodes the same whatever the low two bits of its third character: only its top four bits reach the octets |
| `Base64.DecodeConcat` | src/main/java/com/self/learnjava/web/AuthFilterRegistrationBean.java:72 | decoding splits at any unit boundary: whole units decode on their own, what follows decodes independently, and the whole is refused exactly when what follows is refused |
| `Base64.DecodeSameTail` | src/main/java/com/self/learnjava/web/AuthFilterRegistrationBean.java:72 | two tails that decode alike still decode alike after the same run of whole units |
| `Base64.EncodeHead` | src/main/java/com/self/learnjava/web/AuthFilterRegistrationBean.java:72 | the padded encoding of three or more octets starts with one unit of four alphabet characters that decodes to the first three octets, followed by the encoding of the rest |
| `Base64.QuantumRoundTrip` | src/main/java/com/self/learnjava/web/AuthFilterRegistrationBean.java:72 | three octets encoded as four characters decode back to the same three octets |
| `Base64.OneOctetRoundTrip` | src/main/java/com/self/learnjava/web/AuthFilterRegistrationBean.java:72 | a padded last unit `xx==` decodes back to its one octet |
| `Base64.TwoOctetsRoundTrip` | src/main/java/com/self/learnjava/web/AuthFilterRegistrationBean.java:72 | a padded last unit `xxx=` decodes back to its two octets |
| `Base64.FinalUnitWellFormed` | src/main/java/com/self/learnjava/web/AuthFilterRegistrationBean.java:72 | a token that does not start with four alphabet characters is accepted exactly when it is one of the short last units `xx`, `xxx`, `xx==` or `xxx=` |
| `Base64.WellFormedAfterQuantum` | src/main/java/com/self/learnjava/web/AuthFilterRegistrationBean.java:72 | after four alphabet characters, acceptability depends only on the rest of the token |
| `BasicCredentials.StartsWith` | src/main/java/com/self/learnjava/web/AuthFilterRegistrationBean.java:70 | `authHeader.startsWith("Basic ")` holds exactly when the header is the prefix followed by the rest of it |
| `BasicCredentials.IndexOf` | src/main/java/com/self/learnjava/web/AuthFilterRegistrationBean.java:73 | `indexOf(':')` is -1 exactly when there is no colon; otherwise it is the position of the first colon |
| `BasicCredentials.IndexOfFirst` | src/main/java/com/self/learnjava/web/AuthFilterRegistrationBean.java:73 | a colon after a colon-free prefix is found at the end of that prefix, whatever follows |
| `BasicCredentials.SplitAtColon` | src/main/java/com/self/learnjava/web/AuthFilterRegistrationBean.java:73-76 | nothing is split when there is no colon or the text starts with one (`pos <= 0`); otherwise the user part is non-empty and colon-free, and user + ":" + password is the decoded text |
| `BasicCredentials.SplitJoined` | src/main/java/com/self/learnjava/web/AuthFilterRegistrationBean.java:73-76 | splitting inverts joining: a non-empty, colon-free user and any password (colons included) come back unchanged |
| `BasicCredentials.RawCredentials` | src/main/java/com/self/learnjava/web/AuthFilterRegistrationBean.java:69-76 | no attempt without the `"Basic "` prefix; with it, the only exception is malformed Base64, thrown exactly when the token after the first 6 characters is not well formed; credentials are found exactly when the decoded UTF-8 text has a colon that is not its first character, and they reassemble that text with a non-empty, colon-free user |
| `BasicCredentials.ExtractCredentials` | src/main/java/com/self/learnjava/web/AuthFilterRegistrationBean.java:69-76 | no attempt without the prefix, and exactly when the raw step makes none; a Base64 exception of the raw step is passed on unchanged; raw credentials give credentials exactly when both halves form-decode, and a malformed-escape exception otherwise; the email and password are the form-decoded halves |
| `BasicCredentials.MalformedTokenThrows` | src/main/java/com/self/learnjava/web/AuthFilterRegistrationBean.java:70-72 | for a header `"Basic " + token`, the Base64 exception is thrown exactly when the token is not well formed, whatever the other decoders do |
| `BasicCredentials.UnpaddedTokenAccepted` | src/main/java/com/self/learnjava/web/AuthFilterRegistrationBean.java:70-76 | padding is optional: the unpadded token `dTpwdw` (the octets of `u:pw`) yields the user `u` and the password `pw` |
| `BasicCredentials.NoUserPartIgnored` | src/main/java/com/self/learnjava/web/AuthFilterRegistrationBean.java:73-74 | decoded text with no colon, or with an empty user part, is ignored without an exception |
| `BasicCredentials.RawCredentialsRoundTrip` | src/main/java/com/self/learnjava/web/AuthFilterRegistrationBean.java:70-76 | round trip: `"Basic " + base64(bytes)`, where the bytes read as `u + ":" + p` with `u` non-empty and colon-free, yields exactly `(u, p)` |
| `BasicCredentials.RawCredentialsUnpaddedRoundTrip` | src/main/java/com/self/learnjava/web/AuthFilterRegistrationBean.java:70-76 | the same round trip for a header whose Base64 token has its padding left off |
| `BasicCredentials.HalvesDecodedSeparately` | src/main/java/com/self/learnjava/web/AuthFilterRegistrationBean.java:75-76 | each half is form-decoded on its own; if both decode, the results are the credentials; otherwise a malformed-escape exception is thrown |
| `AuthFilter.Authenticate` | src/main/java/com/self/learnjava/web/AuthFilterRegistrationBean.java:69-77 | sign-in is attempted exactly when credentials were extracted; an extraction exception is passed on unchanged; extracted credentials sign in exactly when `signin` returns a user, which is the result, and otherwise the sign-in exception is thrown |
| `AuthFilter.SessionAfter` | src/main/java/com/self/learnjava/web/AuthFilterRegistrationBean.java:78 | after a sign-in, `KEY_USER` holds the returned user and every other attribute is unchanged; any other outcome leaves the attributes unchanged |
| `AuthFilter.SignInRoundTrip` | src/main/java/com/self/learnjava/web/AuthFilterRegistrationBean.java:69-78 | end to end: a well-formed Basic header signs in the user that `signin` returns for the form-decoded halves, and the session then holds that user |
| `AuthFilter.Session.SetAttribute` | src/main/java/com/self/learnjava/web/AuthFilterRegistrationBean.java:78 | setting an attribute replaces that one key and keeps the others |
| `AuthFilter.Request.GetSession` | src/main/java/com/self/learnjava/web/AuthFilterRegistrationBean.java:78 | returns the request's session, or creates a fresh, empty one and attaches it |
| `AuthFilter.FilterChain.DoFilter` | src/main/java/com/self/learnjava/web/AuthFilterRegistrationBean.java:65 | records one more call with this request and response, and the session attributes the later handlers find at that moment |
| `AuthFilter.AuthFilter.constructor` | src/main/java/com/self/learnjava/web/AuthFilterRegistrationBean.java:41-51 | the filter keeps the sign-in service it was given |
| `AuthFilter.AuthFilter.AuthenticateByHeader` | src/main/java/com/self/learnjava/web/AuthFilterRegistrationBean.java:68-82 | throws exactly the exception `Authenticate` names; the session attributes become `SessionAfter` of the old ones; a session is created only for a successful sign-in, and an existing session is kept |
| `AuthFilter.AuthFilter.DoFilter` | src/main/java/com/self/learnjava/web/AuthFilterRegistrationBean.java:57-66 | whatever the authentication did, the chain is then called exactly once more, with the original request and response, and at that call the session already holds `SessionAfter` of the old attributes (so later handlers see the signed-in user); the session changes only as `SessionAfter` says |

## Left out

- Logging (`logger.info`, `logger.warn`): output only. A caught exception is
  not stored anywhere in the model.
- `userService.signin` is not part of this model. It is backed by a database,
  so it is a parameter that returns a user or fails. As an arrow function it
  gives the same answer for the same email and password within one call.
- UTF-8 reading and `URLDecoder.decode` are JDK code, so they are parameters
  (`Codecs`). Their own rules are not modelled: replacement of malformed
  UTF-8, `+` read as a space, and `%XX` escapes.
- `UnsupportedEncodingException` (checked, and not caught by
  `catch (RuntimeException e)`) cannot occur with the charset name `"UTF-8"`,
  so it is not modelled.
- The request's other headers and the case-insensitive lookup of header
  names by the servlet container: a `Request` carries only the value that
  `getHeader("Authorization")` returns.
- What the rest of the filter chain does with the request, and any
  `IOException` or `ServletException` it throws. The chain only records the
  call and the session attributes it sees.
- Java strings are UTF-16 code units. Here a string is a `seq<char>`, and
  `substring(6)`, `indexOf(':')` and the Base64 alphabet test are exact on
  it. The decoder's ISO-8859-1 conversion of the token turns every character
  above U+00FF into `?`, which the decoder refuses, just like any other
  character outside the alphabet.
- The cast `(HttpServletRequest) request` at the start of `doFilter` sits
  outside the `try`. The model types the request as an HTTP request, so the
  cast always succeeds. A non-HTTP request would throw `ClassCastException`
  there, before `chain.doFilter` is called.
- Concurrency between requests that share one session.
- The rest of the repository is not modelled: read/write routing between
  data sources, the Redis connection pool, the controllers, mail,
  messaging and storage. These are configuration over library code, or
  input/output glue.
