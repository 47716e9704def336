/**
 * The request gate: every path that starts with `/admin` needs HTTP Basic credentials
 * equal to the configured administrator name and password.
 */
module AccessGate {
  import opened Wrappers
  import opened Text
  import opened Validation

  datatype Response =
    | Resolve
    | Unauthorized(body: string, challenge: Option<string>)

  const AdminPrefix := "/admin"
  const Challenge := "Basic realm=\"Admin Area\", charset=\"UTF-8\""
  const NotAuthorized := "Not authorized"
  const InvalidHeader := "Invalid auth header"
  const InvalidCredentials := "Invalid credentials"

  /** `Buffer.from(s, 'base64').toString('utf-8')`. */
  type Base64Decoder = string -> string

  /** `header.split(' ')[1]`, `None` when there is no second piece. */
  function EncodedPart(header: string): Option<string> {
    var parts := Split(header, ' ');
    if |parts| >= 2 then Some(parts[1]) else None
  }

  /** `const [user, pass] = decoded.split(':')` compared with the configured name and
      password; a missing second piece matches no password. */
  predicate CredentialsMatch(decoded: string, username: string, password: string) {
    var parts := Split(decoded, ':');
    parts[0] == username && |parts| >= 2 && parts[1] == password
  }

  /** The gate, given the path, the `Authorization` header, the decoder and the
      configured credentials. */
  function Handle(path: string, authorization: Option<string>, decode: Base64Decoder,
                  username: string, password: string): (r: Response)
    ensures !StartsWith(path, AdminPrefix) ==> r == Resolve
    ensures StartsWith(path, AdminPrefix) && !Truthy(authorization) ==>
              r == Unauthorized(NotAuthorized, Some(Challenge))
    ensures r.Unauthorized? && r.challenge.Some? ==> !Truthy(authorization)
    ensures StartsWith(path, AdminPrefix) && Truthy(authorization) && !Truthy(EncodedPart(authorization.value)) ==>
              r == Unauthorized(InvalidHeader, None)
    ensures r.Unauthorized? ==> StartsWith(path, AdminPrefix)
    ensures StartsWith(path, AdminPrefix) && Truthy(authorization) && Truthy(EncodedPart(authorization.value)) ==>
              && (r == Resolve <==> CredentialsMatch(decode(EncodedPart(authorization.value).value), username, password))
              && (r != Resolve ==> r == Unauthorized(InvalidCredentials, None))
  {
    if !StartsWith(path, AdminPrefix) then Resolve
    else if !Truthy(authorization) then Unauthorized(NotAuthorized, Some(Challenge))
    else
      var encoded := EncodedPart(authorization.value);
      if !Truthy(encoded) then Unauthorized(InvalidHeader, None)
      else if CredentialsMatch(decode(encoded.value), username, password) then Resolve
      else Unauthorized(InvalidCredentials, None)
  }

  /** The gate tests a prefix, not a path segment: `/administrator` is gated too. */
  lemma PrefixNotSegment()
    ensures StartsWith("/administrator", AdminPrefix)
  {
  }

  lemma SplitWord(w: string, sep: char)
    requires sep !in w
    ensures Split(w, sep) == [w]
  {
    SplitPrefix(w, [], sep);
    assert w + [] == w;
  }

  /** The first word of the header (the scheme) is never looked at. */
  lemma SchemeIgnored(path: string, scheme1: string, scheme2: string, rest: string,
                      decode: Base64Decoder, username: string, password: string)
    requires ' ' !in scheme1 && ' ' !in scheme2
    ensures Handle(path, Some(scheme1 + " " + rest), decode, username, password)
         == Handle(path, Some(scheme2 + " " + rest), decode, username, password)
  {
    SplitConcat(scheme1, rest, ' ');
    SplitConcat(scheme2, rest, ' ');
    SplitWord(scheme1, ' ');
    SplitWord(scheme2, ' ');
  }

  /** The credentials are accepted when the decoded text is the name, a colon and the
      password, and neither holds a colon. */
  lemma CorrectCredentialsAdmitted(path: string, scheme: string, encoded: string,
                                   decode: Base64Decoder, username: string, password: string)
    requires ' ' !in scheme && ' ' !in encoded && encoded != []
    requires ':' !in username && ':' !in password
    requires decode(encoded) == username + ":" + password
    ensures Handle(path, Some(scheme + " " + encoded), decode, username, password) == Resolve
  {
    SplitConcat(scheme, encoded, ' ');
    SplitWord(scheme, ' ');
    SplitWord(encoded, ' ');
    SplitConcat(username, password, ':');
    SplitWord(username, ':');
    SplitWord(password, ':');
  }

  /** The decoded credentials match exactly when they are the name, a colon and the
      password, possibly followed by a further colon and anything at all. */
  lemma CredentialsShape(decoded: string, username: string, password: string)
    requires ':' !in username && ':' !in password
    ensures CredentialsMatch(decoded, username, password) <==>
      decoded == username + ":" + password || StartsWith(decoded, username + ":" + password + ":")
  {
    if CredentialsMatch(decoded, username, password) {
      AdmittedCredentialsShape(decoded, username, password);
    }
    var u, p := username, password;
    if decoded == u + ":" + p {
      SplitConcat(u, p, ':');
      SplitWord(u, ':');
      SplitWord(p, ':');
    } else if StartsWith(decoded, u + ":" + p + ":") {
      var rest := decoded[|u + ":" + p + ":"|..];
      assert decoded == u + [':'] + (p + [':'] + rest);
      SplitConcat(u, p + [':'] + rest, ':');
      SplitConcat(p, rest, ':');
      SplitWord(u, ':');
      SplitWord(p, ':');
    }
  }

  /** Admission means the decoded credentials are the name, a colon and the password,
      or begin with them and a further colon: anything after that colon is ignored. */
  lemma AdmittedCredentialsShape(decoded: string, username: string, password: string)
    requires CredentialsMatch(decoded, username, password)
    ensures decoded == username + ":" + password || StartsWith(decoded, username + ":" + password + ":")
  {
    var parts := Split(decoded, ':');
    JoinSplit(decoded, ':');
    assert parts == [parts[0]] + parts[1..];
    if |parts[1..]| == 1 {
      assert Join(parts[1..], ":") == parts[1];
    } else {
      assert Join(parts[1..], ":") == parts[1] + ":" + Join(parts[2..], ":");
    }
    assert decoded == username + ":" + Join(parts[1..], ":");
    if |parts[1..]| != 1 {
      assert decoded == (username + ":" + password + ":") + Join(parts[2..], ":");
    }
  }

  /** An admitted request to an admin path carried a header whose second word decodes
      to the name, a colon and the password (possibly followed by more text). */
  lemma AdmissionSound(path: string, authorization: Option<string>, decode: Base64Decoder,
                       username: string, password: string)
    requires StartsWith(path, AdminPrefix)
    requires Handle(path, authorization, decode, username, password) == Resolve
    ensures Truthy(authorization) && Truthy(EncodedPart(authorization.value))
    ensures var decoded := decode(EncodedPart(authorization.value).value);
      decoded == username + ":" + password || StartsWith(decoded, username + ":" + password + ":")
  {
    AdmittedCredentialsShape(decode(EncodedPart(authorization.value).value), username, password);
  }

  /** A configured password that holds a colon can never be matched. */
  lemma ColonPasswordUnmatchable(decoded: string, username: string, password: string)
    requires ':' in password
    ensures !CredentialsMatch(decoded, username, password)
  {
  }
}
