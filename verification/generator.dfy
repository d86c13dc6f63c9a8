/**
  The password derivation of generator/generator.go: settings validation,
  the canonical plaintext, the SHA-256 digest (a parameter of the model),
  its base-64 encoding, the length check, the truncation and the optional
  special-character suffix.
*/
module Generator {
  import opened Wrappers
  import opened Bytes
  import opened Base64
  import SpecialChars

  /** A SHA-256 digest: `sha256.Sum256` always yields 32 bytes. */
  type Digest = d: seq<byte> | |d| == 32 witness seq(32, i => 0)

  /**
    The settings record. Go strings are byte strings, so the three text
    fields are byte sequences; `PasswordLength` is a Go `int`, which may be
    negative.
  */
  datatype Settings = Settings(
    masterPhrase: seq<byte>,
    domain: seq<byte>,
    additionalInfo: seq<byte>,
    passwordLength: int,
    addSpecialCharacters: bool)

  /** The three errors the generator returns; the too-long error reports the limit. */
  datatype GenError = EmptyPass | EmptyDomain | TooLong(limit: nat)

  /** The two slice expressions that panic on lengths the source does not check. */
  datatype PanicSite =
    | TruncateOutOfRange   // fullEncryptHash[:PasswordLength] with a negative length
    | OverwriteOutOfRange  // trimmedPass[:len(trimmedPass)-4] with fewer than 4 characters

  /** What a call to `GeneratePassword` does: a password, an error value, or a runtime panic. */
  datatype Outcome = Ok(password: string) | Err(error: GenError) | Panic(site: PanicSite)

  /** The separator byte `:` of the canonical plaintext. */
  const Colon: byte := 58

  /** Length of the encoded digest, and so the longest password the generator produces. */
  const MaxPasswordLength: nat := 44

  /** `DefaultSettings`: length 12, special characters on, every text field empty. */
  function DefaultSettings(): (s: Settings)
    ensures s.passwordLength == 12 && s.addSpecialCharacters
    ensures s.masterPhrase == [] && s.domain == [] && s.additionalInfo == []
  {
    Settings([], [], [], 12, true)
  }

  /**
    `validateSettings`: the master phrase is checked before the domain, so an
    empty master phrase is reported whatever the domain holds.
  */
  function ValidateSettings(s: Settings): (r: Option<GenError>)
    ensures r.None? <==> s.masterPhrase != [] && s.domain != []
    ensures r == Some(EmptyPass) <==> s.masterPhrase == []
    ensures r == Some(EmptyDomain) <==> s.masterPhrase != [] && s.domain == []
  {
    if s.masterPhrase == [] then Some(EmptyPass)
    else if s.domain == [] then Some(EmptyDomain)
    else None
  }

  /** The text that is hashed: master phrase, domain and additional information joined by `:`. */
  function Plaintext(s: Settings): (p: seq<byte>)
    ensures |p| == |s.masterPhrase| + |s.domain| + |s.additionalInfo| + 2
    ensures p[..|s.masterPhrase|] == s.masterPhrase
    ensures p[|s.masterPhrase|] == Colon
    ensures p[|s.masterPhrase| + 1..|s.masterPhrase| + 1 + |s.domain|] == s.domain
    ensures p[|s.masterPhrase| + 1 + |s.domain|] == Colon
    ensures p[|s.masterPhrase| + |s.domain| + 2..] == s.additionalInfo
  {
    var p := s.masterPhrase + [Colon] + s.domain + [Colon] + s.additionalInfo;
    assert p[|s.masterPhrase| + 1..|s.masterPhrase| + 1 + |s.domain|] == s.domain;
    assert p[|s.masterPhrase| + |s.domain| + 2..] == s.additionalInfo;
    p
  }

  /** Position of the first x in p, or |p| when there is none. */
  function FirstIndex(p: seq<byte>, x: byte): (k: nat)
    ensures k <= |p|
    ensures k < |p| ==> p[k] == x
    ensures forall j | 0 <= j < k :: p[j] != x
  {
    if |p| == 0 then 0
    else if p[0] == x then 0
    else 1 + FirstIndex(p[1..], x)
  }

  /** Reads a plaintext back into its three fields, splitting at the first two colons. */
  function SplitPlaintext(p: seq<byte>): Option<(seq<byte>, seq<byte>, seq<byte>)>
  {
    var i := FirstIndex(p, Colon);
    if i == |p| then None
    else
      var rest := p[i + 1..];
      var j := FirstIndex(rest, Colon);
      if j == |rest| then None
      else Some((p[..i], rest[..j], rest[j + 1..]))
  }

  /**
    The derivation. `sha256` stands for `sha256.Sum256` on the plaintext
    bytes; everything else follows the source step by step.
  */
  function Generate(s: Settings, sha256: seq<byte> -> Digest): (r: Outcome)
    ensures r.Ok? <==>
      && ValidateSettings(s).None?
      && 0 <= s.passwordLength <= MaxPasswordLength
      && (s.addSpecialCharacters ==> SpecialChars.GroupLength <= s.passwordLength)
    ensures r.Ok? ==> |r.password| == s.passwordLength
    ensures ValidateSettings(s).Some? ==> r == Err(ValidateSettings(s).value)
    ensures r == Err(TooLong(MaxPasswordLength)) <==>
      ValidateSettings(s).None? && MaxPasswordLength < s.passwordLength
    ensures r == Panic(TruncateOutOfRange) <==>
      ValidateSettings(s).None? && s.passwordLength < 0
    ensures r == Panic(OverwriteOutOfRange) <==>
      && ValidateSettings(s).None?
      && s.addSpecialCharacters
      && 0 <= s.passwordLength < SpecialChars.GroupLength
  {
    match ValidateSettings(s)
    case Some(e) => Err(e)
    case None =>
      var full := Encode(sha256(Plaintext(s)));
      if |full| < s.passwordLength then Err(TooLong(|full|))
      else if s.passwordLength < 0 then Panic(TruncateOutOfRange)
      else
        var trimmed := full[..s.passwordLength];
        if !s.addSpecialCharacters then Ok(trimmed)
        else
          var chars := SpecialChars.SpecialCharacters(full);
          if |trimmed| < |chars| then Panic(OverwriteOutOfRange)
          else Ok(trimmed[..|trimmed| - |chars|] + chars)
  }

  /** A 32-byte digest encodes to 43 alphabet characters and one `=`. */
  lemma DigestEncoding(d: Digest)
    ensures |Encode(d)| == MaxPasswordLength
    ensures Encode(d)[MaxPasswordLength - 1] == Pad
    ensures forall i | 0 <= i < MaxPasswordLength - 1 :: InAlphabet(Encode(d)[i])
  {
    EncodeShape(d);
  }

  /** Splitting the plaintext recovers the fields when the first two hold no colon. */
  lemma PlaintextSplits(s: Settings)
    requires Colon !in s.masterPhrase && Colon !in s.domain
    ensures SplitPlaintext(Plaintext(s)) == Some((s.masterPhrase, s.domain, s.additionalInfo))
  {
    var p := Plaintext(s);
    var m, d := s.masterPhrase, s.domain;
    FirstIndexOf(p, |m|);
    var rest := p[|m| + 1..];
    assert rest == d + [Colon] + s.additionalInfo;
    FirstIndexOf(rest, |d|);
    assert p[..|m|] == m;
    assert rest[..|d|] == d;
    assert rest[|d| + 1..] == s.additionalInfo;
  }

  /** A colon preceded by none is the first one. */
  lemma FirstIndexOf(p: seq<byte>, k: nat)
    requires k < |p| && p[k] == Colon
    requires forall j | 0 <= j < k :: p[j] != Colon
    ensures FirstIndex(p, Colon) == k
  {
    var i := FirstIndex(p, Colon);
    assert !(i < k);
  }

  /**
    Settings whose master phrase and domain hold no colon are told apart by
    their plaintext: the joined form loses none of the three fields.
  */
  lemma PlaintextInjective(s1: Settings, s2: Settings)
    requires Colon !in s1.masterPhrase && Colon !in s1.domain
    requires Colon !in s2.masterPhrase && Colon !in s2.domain
    requires Plaintext(s1) == Plaintext(s2)
    ensures s1.masterPhrase == s2.masterPhrase
    ensures s1.domain == s2.domain
    ensures s1.additionalInfo == s2.additionalInfo
  {
    PlaintextSplits(s1);
    PlaintextSplits(s2);
  }

  /** With a colon inside a field, two different settings share a plaintext (and so a password). */
  lemma PlaintextAmbiguous()
    ensures exists s1: Settings, s2: Settings ::
      s1.masterPhrase != s2.masterPhrase && Plaintext(s1) == Plaintext(s2)
  {
    var s1 := Settings([97, Colon, 98], [99], [], 12, true);
    var s2 := Settings([97], [98, Colon, 99], [], 12, true);
    assert Plaintext(s1) == Plaintext(s2);
  }

  /** The default settings are refused for their empty master phrase, whatever the hash. */
  lemma DefaultSettingsRejected(sha256: seq<byte> -> Digest)
    ensures Generate(DefaultSettings(), sha256) == Err(EmptyPass)
  {
  }

  /**
    Error precedence: an empty master phrase wins over everything, an empty
    domain over everything but that, and neither depends on the digest.
  */
  lemma ValidationPrecedence(s: Settings, sha256: seq<byte> -> Digest)
    ensures s.masterPhrase == [] ==> Generate(s, sha256) == Err(EmptyPass)
    ensures s.masterPhrase != [] && s.domain == [] ==> Generate(s, sha256) == Err(EmptyDomain)
  {
  }

  /**
    A refused call never looks at the digest: the outcome is the same for
    any two hash functions. The too-long error does not depend on it either.
  */
  lemma FailureIgnoresHash(s: Settings, h1: seq<byte> -> Digest, h2: seq<byte> -> Digest)
    requires ValidateSettings(s).Some? || MaxPasswordLength < s.passwordLength
    ensures Generate(s, h1) == Generate(s, h2)
    ensures Generate(s, h1).Err?
  {
    if ValidateSettings(s).None? {
      DigestEncoding(h1(Plaintext(s)));
      DigestEncoding(h2(Plaintext(s)));
    }
  }

  /**
    The digest is taken of the plaintext and of nothing else: two hash
    functions that agree on it give the same outcome.
  */
  lemma HashesOnlyPlaintext(s: Settings, h1: seq<byte> -> Digest, h2: seq<byte> -> Digest)
    requires h1(Plaintext(s)) == h2(Plaintext(s))
    ensures Generate(s, h1) == Generate(s, h2)
  {
  }

  /** Without special characters the password is the first `PasswordLength` characters of the encoded digest. */
  lemma PlainPassword(s: Settings, sha256: seq<byte> -> Digest)
    requires ValidateSettings(s).None? && !s.addSpecialCharacters
    requires 0 <= s.passwordLength <= MaxPasswordLength
    ensures Generate(s, sha256) == Ok(Encode(sha256(Plaintext(s)))[..s.passwordLength])
  {
    DigestEncoding(sha256(Plaintext(s)));
  }

  /** Below the full length, a password without special characters uses only the 64 alphabet characters. */
  lemma PlainPasswordAlphabet(s: Settings, sha256: seq<byte> -> Digest)
    requires ValidateSettings(s).None? && !s.addSpecialCharacters
    requires 0 <= s.passwordLength < MaxPasswordLength
    ensures Generate(s, sha256).Ok?
    ensures forall i | 0 <= i < s.passwordLength :: InAlphabet(Generate(s, sha256).password[i])
  {
    DigestEncoding(sha256(Plaintext(s)));
  }

  /**
    With special characters the password keeps the length asked for: the
    encoded digest's prefix, then the group chosen by the vowels of the
    whole 44-character encoding, not only of the kept prefix.
  */
  lemma SpecialPassword(s: Settings, sha256: seq<byte> -> Digest)
    requires ValidateSettings(s).None? && s.addSpecialCharacters
    requires SpecialChars.GroupLength <= s.passwordLength <= MaxPasswordLength
    ensures Generate(s, sha256).Ok?
    ensures var p, full, k := Generate(s, sha256).password, Encode(sha256(Plaintext(s))), s.passwordLength - SpecialChars.GroupLength;
      && |p| == s.passwordLength
      && p[..k] == full[..k]
      && p[k..] == SpecialChars.Groups[SpecialChars.VowelPositions(full) % |SpecialChars.Groups|]
  {
    var full := Encode(sha256(Plaintext(s)));
    DigestEncoding(sha256(Plaintext(s)));
    SpecialChars.SpecialCharactersByPosition(full);
    var p := Generate(s, sha256).password;
    var n, k := s.passwordLength, s.passwordLength - SpecialChars.GroupLength;
    assert p == full[..n][..k] + SpecialChars.SpecialCharacters(full);
    assert p[k..] == SpecialChars.SpecialCharacters(full);
  }
}
