/** Credential rules of the identity schema and its Applicant and
    Instructor extensions: field validators, the password hashing routine,
    the pre-save hook that salts and hashes, and authentication.

    The key-derivation function (PBKDF2 of section 5.2 of RFC 8018, 10000
    iterations, 64-byte key, base64 text) is the parameter `h`; nothing is
    assumed of it unless a lemma says so. The random salt is the parameter
    `newSalt`. */
module Credentials {
  import opened Options
  import opened Email

  type byte = x: int | 0 <= x < 256

  /** A salt as stored on the record; the empty sequence is "no salt". */
  type Salt = seq<byte>

  /** The key-derivation function, keyed by password then salt. */
  type Hash = (string, Salt) -> string

  const LocalProvider: string := "local"
  const SaltLength: nat := 16

  /** Which schema a record belongs to. An Applicant may be a top-level
      document or a copy embedded in a Bootcamp's applicant list. */
  datatype Kind = User | Applicant(embedded: bool) | Instructor

  /** The fields of the shared identity schema that the credential rules
      read or write. String fields hold their stored (already trimmed)
      values; `updated` is the last-modified timestamp when one is set. */
  datatype Identity = Identity(
    kind: Kind,
    firstName: string,
    lastName: string,
    email: string,
    username: string,
    password: string,
    salt: Salt,
    provider: string,
    updated: Option<int>)

  /** Positions of the characters outside the Basic Multilingual Plane,
      which JavaScript stores as a surrogate pair. */
  function AstralPositions(s: string): set<int>
  {
    set k | 0 <= k < |s| && s[k] as int >= 0x1_0000
  }

  lemma AstralPositionsSnoc(s: string)
    requires s != []
    ensures var init := s[..|s| - 1];
      |AstralPositions(s)| == |AstralPositions(init)| + (if s[|s| - 1] as int >= 0x1_0000 then 1 else 0)
  {
    var init := s[..|s| - 1];
    var last := if s[|s| - 1] as int >= 0x1_0000 then {|s| - 1} else {};
    assert AstralPositions(s) == AstralPositions(init) + last;
    assert AstralPositions(init) !! last;
  }

  /** `String.prototype.length`: the number of UTF-16 code units, two for
      a character outside the Basic Multilingual Plane and one otherwise. */
  function Utf16Length(s: string): (n: nat)
    ensures n == |s| + |AstralPositions(s)|
    ensures |s| <= n <= 2 * |s|
    ensures n == 0 <==> s == []
    ensures (forall k :: 0 <= k < |s| ==> s[k] as int < 0x1_0000) ==> n == |s|
    decreases |s|
  {
    if s == [] then 0
    else
      AstralPositionsSnoc(s);
      Utf16Length(s[..|s| - 1]) + (if s[|s| - 1] as int < 0x1_0000 then 1 else 2)
  }

  /** The validator shared by first name, last name and email: a value is
      needed unless the record comes from an external provider and has
      never been updated. */
  function LocalStrategyProperty(r: Identity, property: string): (ok: bool)
    ensures property != "" ==> ok
    ensures r.provider == LocalProvider || r.updated.Some? ==> (ok <==> property != "")
    ensures r.provider != LocalProvider && r.updated.None? ==> ok
  {
    (r.provider != LocalProvider && r.updated.None?) || Utf16Length(property) != 0
  }

  /** The password validator: local accounts need more than 6 UTF-16 code
      units; other providers pass whatever the password. */
  function LocalStrategyPassword(r: Identity, password: string): (ok: bool)
    ensures r.provider != LocalProvider ==> ok
    ensures r.provider == LocalProvider ==> (ok <==> Utf16Length(password) > 6)
  {
    r.provider != LocalProvider || (password != "" && Utf16Length(password) > 6)
  }

  /** The `match` rule of the email field. The schema's pattern test does not
      apply to an empty value, so only a non-empty email must match. */
  function EmailMatchRule(email: string): (ok: bool)
    ensures ok <==> email == "" || PatternFound(email)
  {
    email == "" || EmailMatches(email)
  }

  /** The field rules of the schema, one per validation message. */
  datatype Failure =
    | MissingFirstName | MissingLastName | MissingEmail | InvalidEmail
    | MissingUsername | ShortPassword | MissingProvider

  function Message(f: Failure): string
  {
    match f
    case MissingFirstName => "Please fill in your first name"
    case MissingLastName => "Please fill in your last name"
    case MissingEmail => "Please fill in your email"
    case InvalidEmail => "Please fill a valid email address"
    case MissingUsername => "Please fill in a username"
    case ShortPassword => "Password should be longer"
    case MissingProvider => "Provider is required"
  }

  const AllRules: set<Failure> :=
    {MissingFirstName, MissingLastName, MissingEmail, InvalidEmail, MissingUsername, ShortPassword, MissingProvider}

  /** Whether record `r` breaks rule `f`. */
  predicate Breaks(r: Identity, f: Failure)
  {
    match f
    case MissingFirstName => !LocalStrategyProperty(r, r.firstName)
    case MissingLastName => !LocalStrategyProperty(r, r.lastName)
    case MissingEmail => !LocalStrategyProperty(r, r.email)
    case InvalidEmail => !EmailMatchRule(r.email)
    case MissingUsername => r.username == ""
    case ShortPassword => !LocalStrategyPassword(r, r.password)
    case MissingProvider => r.provider == ""
  }

  /** The field rules a record breaks. */
  function Failures(r: Identity): (failures: set<Failure>)
    ensures MissingFirstName in failures <==> !LocalStrategyProperty(r, r.firstName)
    ensures MissingLastName in failures <==> !LocalStrategyProperty(r, r.lastName)
    ensures MissingEmail in failures <==> !LocalStrategyProperty(r, r.email)
    ensures InvalidEmail in failures <==> r.email != "" && !PatternFound(r.email)
    ensures MissingUsername in failures <==> r.username == ""
    ensures ShortPassword in failures <==> r.provider == LocalProvider && Utf16Length(r.password) <= 6
    ensures MissingProvider in failures <==> r.provider == ""
  {
    set f | f in AllRules && Breaks(r, f)
  }

  predicate Valid(r: Identity)
  {
    Failures(r) == {}
  }

  /** A local account is valid exactly when both names and the email are
      filled in, the email matches the pattern, a username is given and the
      password is longer than 6 characters. */
  lemma LocalValidity(r: Identity)
    requires r.provider == LocalProvider
    ensures Valid(r) <==>
      && r.firstName != "" && r.lastName != "" && r.email != ""
      && PatternFound(r.email) && r.username != "" && Utf16Length(r.password) > 6
  {
  }

  /** An external account that was never updated is exempt from the name,
      email and password rules; only a non-empty email must still match the
      pattern, and the required fields must be filled in. */
  lemma ExternalValidity(r: Identity)
    requires r.provider != LocalProvider && r.provider != "" && r.updated.None?
    ensures Valid(r) <==> (r.email == "" || PatternFound(r.email)) && r.username != ""
  {
  }

  /** Once an external account has `updated` set, an empty first name,
      last name or email makes it invalid again. */
  lemma UpdatedExternalNeedsProperties(r: Identity)
    requires r.provider != LocalProvider && r.updated.Some?
    requires r.firstName == "" || r.lastName == "" || r.email == ""
    ensures !Valid(r)
  {
  }

  /** The instance method `hashPassword`: a salted record hashes a non-empty
      password; without a salt, or for an empty password, the argument comes
      back unchanged. */
  function HashPassword(h: Hash, r: Identity, password: string): (hashed: string)
    ensures r.salt == [] || password == "" ==> hashed == password
    ensures r.salt != [] && password != "" ==> hashed == h(password, r.salt)
  {
    if r.salt != [] && password != "" then h(password, r.salt) else password
  }

  /** The instance method `authenticate`: the stored password equals the
      hash of the candidate under the stored salt. */
  function Authenticate(h: Hash, r: Identity, candidate: string): (ok: bool)
    ensures r.salt == [] || candidate == "" ==> (ok <==> r.password == candidate)
    ensures r.salt != [] && candidate != "" ==> (ok <==> r.password == h(candidate, r.salt))
  {
    r.password == HashPassword(h, r, candidate)
  }

  /** The hashing step of the hook. An embedded Applicant hashes through a
      fresh top-level Applicant built from its own fields. */
  function HashForSave(h: Hash, salted: Identity): string
  {
    match salted.kind
    case Applicant(true) => HashPassword(h, salted.(kind := Applicant(false)), salted.password)
    case _ => HashPassword(h, salted, salted.password)
  }

  /** The `pre('save')` hook shared in behaviour by all three schemas. A
      password field longer than 6 UTF-16 code units gets the new salt and is
      replaced by its hash under that salt; otherwise the record is saved as
      it is. No other field changes. */
  function PreSave(h: Hash, r: Identity, newSalt: Salt): (saved: Identity)
    requires |newSalt| == SaltLength
    ensures Utf16Length(r.password) > 6 ==> saved.salt == newSalt && saved.password == h(r.password, newSalt)
    ensures Utf16Length(r.password) <= 6 ==> saved == r
    ensures saved.(password := r.password, salt := r.salt) == r
  {
    if r.password != "" && Utf16Length(r.password) > 6 then
      var salted := r.(salt := newSalt);
      salted.(password := HashForSave(h, salted))
    else r
  }

  /** The three schemas, and the embedded and top-level forms of an
      Applicant, store the same password and salt for the same input. */
  lemma PreSaveUniform(h: Hash, r: Identity, newSalt: Salt, kind: Kind)
    requires |newSalt| == SaltLength
    ensures PreSave(h, r.(kind := kind), newSalt) == PreSave(h, r, newSalt).(kind := kind)
  {
  }

  /** Authentication compares against the hash under the stored salt; on
      a record with no salt it is plain string equality. */
  lemma AuthenticateUnsalted(h: Hash, r: Identity, candidate: string)
    requires r.salt == []
    ensures Authenticate(h, r, candidate) <==> r.password == candidate
  {
  }

  /** Round trip: right after the hook hashes plaintext `p`, `p`
      authenticates, and a candidate authenticates exactly when it hashes to
      the same value under the new salt. */
  lemma AuthenticateAfterSave(h: Hash, r: Identity, newSalt: Salt, candidate: string)
    requires |newSalt| == SaltLength && Utf16Length(r.password) > 6
    ensures Authenticate(h, PreSave(h, r, newSalt), r.password)
    ensures Authenticate(h, PreSave(h, r, newSalt), candidate) <==>
      if candidate == "" then h(r.password, newSalt) == "" else h(candidate, newSalt) == h(r.password, newSalt)
  {
  }

  /** An idealisation of a collision-resistant key derivation: for salt
      `s` no two passwords share a hash. The real derivation's 88-character
      output cannot be injective over unbounded passwords; the only fact
      claimed of it is that it is never empty. */
  ghost predicate SoundHash(h: Hash, s: Salt)
  {
    && (forall p :: h(p, s) != "")
    && (forall p, q :: h(p, s) == h(q, s) ==> p == q)
  }

  /** With a collision-free hash, after saving plaintext `p` exactly `p`
      authenticates: any other candidate, the empty string included, fails. */
  lemma AuthenticateExactlyAfterSave(h: Hash, r: Identity, newSalt: Salt, candidate: string)
    requires |newSalt| == SaltLength && Utf16Length(r.password) > 6
    requires SoundHash(h, newSalt)
    ensures Authenticate(h, PreSave(h, r, newSalt), candidate) <==> candidate == r.password
  {
    AuthenticateAfterSave(h, r, newSalt, candidate);
  }

  /** As written the hook has no "already hashed" test: saving a record a
      second time hashes the stored hash with a new salt, after which the
      original plaintext no longer authenticates. */
  lemma ResaveBreaksLogin(h: Hash, r: Identity, s1: Salt, s2: Salt)
    requires |s1| == SaltLength && |s2| == SaltLength && Utf16Length(r.password) > 6
    requires SoundHash(h, s2)
    requires Utf16Length(h(r.password, s1)) > 6 && h(r.password, s1) != r.password
    ensures !Authenticate(h, PreSave(h, PreSave(h, r, s1), s2), r.password)
  {
  }

  /** A concrete instance: with a hash that prefixes `#`, a local user
      whose password is "hunter22" is saved, then saved again; the stored
      password is "##hunter22" and "hunter22" is refused. */
  lemma ResaveExample()
    ensures var h: Hash := (p, s) => "#" + p;
      var r := Identity(User, "Ada", "Lovelace", "ada@example.org", "ada", "hunter22", [], LocalProvider, None);
      var salt := seq(SaltLength, k => 7);
      PreSave(h, PreSave(h, r, salt), salt).password == "##hunter22"
      && !Authenticate(h, PreSave(h, PreSave(h, r, salt), salt), "hunter22")
  {
  }

  /** The hook as evidently intended: it salts and hashes only when the
      password differs from the one the record was loaded with (`loaded`),
      so a later save of other fields leaves the credentials alone. */
  function PreSaveOnChange(h: Hash, loaded: Identity, r: Identity, newSalt: Salt): (saved: Identity)
    requires |newSalt| == SaltLength
    ensures r.password != loaded.password ==> saved == PreSave(h, r, newSalt)
    ensures r.password == loaded.password ==> saved == r
  {
    if r.password != loaded.password then PreSave(h, r, newSalt) else r
  }

  /** With the guarded hook, a user whose password `p` was saved can be
      loaded, have other fields edited and be saved again, and `p` still
      authenticates. */
  lemma EditAndResaveKeepsLogin(h: Hash, r: Identity, s1: Salt, edited: Identity, s2: Salt)
    requires |s1| == SaltLength && |s2| == SaltLength && Utf16Length(r.password) > 6
    requires edited.password == PreSave(h, r, s1).password && edited.salt == PreSave(h, r, s1).salt
    ensures Authenticate(h, PreSaveOnChange(h, PreSave(h, r, s1), edited, s2), r.password)
  {
    AuthenticateAfterSave(h, r, s1, r.password);
  }

  /** With the guarded hook, setting a new password `q` on a loaded record
      and saving it makes exactly `q` authenticate, for a collision-free
      hash. */
  lemma NewPasswordOnChange(h: Hash, loaded: Identity, q: string, s2: Salt, candidate: string)
    requires |s2| == SaltLength && Utf16Length(q) > 6 && q != loaded.password
    requires SoundHash(h, s2)
    ensures Authenticate(h, PreSaveOnChange(h, loaded, loaded.(password := q), s2), candidate) <==> candidate == q
  {
    AuthenticateExactlyAfterSave(h, loaded.(password := q), s2, candidate);
  }
}
