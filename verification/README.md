# gopass password generator — Dafny model

The repository derives a site-specific password from a `Settings` record
(`generator/generator.go`). `GeneratePassword` validates the master phrase
and domain, hashes `MasterPhrase:Domain:AdditionalInfo` with SHA-256,
encodes the 32-byte digest in standard padded base-64 (RFC 4648, section 4),
refuses lengths above the 44 characters that encoding yields, keeps the first
`PasswordLength` characters and, when special characters are requested,
overwrites the last four with one of six fixed groups. The group is chosen by
the number of vowels `aeiouy` in the full encoding, counted without regard to
case, modulo six.

The model is functional:

- `wrappers.dfy` — `Bytes.byte`, the octet type of Go strings and byte
  slices, and `Option`, used for Go's `error`-or-`nil` and for decoding.
- `base64.dfy` — module `Base64`: a real encoder over bytes, with a decoder
  as its inverse. The 44-character ceiling and the single trailing `=` of a
  32-byte digest are proved from the encoder, not assumed.
- `special_chars.dfy` — module `SpecialChars`: the group table, ASCII
  lower-casing, `strings.Count` for one character, and `getSpecialCharacters`.
  It is given twice: as a function, and as a method with the source's loop
  over the vowels, with an explicit loop in place of `strings.Count`. The
  method is proved to return what the function returns, and both are tied
  to a position-by-position reference count of vowels.
- `generator.dfy` — module `Generator`: `Settings`, `DefaultSettings`,
  `validateSettings`, the canonical plaintext and `GeneratePassword`.

SHA-256 is the one foreign piece. It is a parameter `sha256: seq<byte> ->
Digest` of `Generate`, where `Digest` is a byte sequence of length 32. Every
property below holds for every such function. Go strings are byte strings, so
the settings' text fields are byte sequences. The encoded digest and the
password are ASCII text (`string`).

Out-of-range slices make Go panic. These cases have their own outcome,
`Panic(site)`, and no new error value is invented for them:

- a negative `PasswordLength` panics at `fullEncryptHash[:PasswordLength]`;
- a length of 0 to 3 with special characters on panics at
  `trimmedPass[:len(trimmedPass)-4]`.

Validation errors come first: an empty master phrase with a negative length
is `EmptyPass`, not a panic.

Facts of the code the model keeps:
- The digest is computed before the length check
  (generator/generator.go:66-69), so the too-long error comes after hashing.
  It is still independent of the digest (`FailureIgnoresHash`).
- The too-long error carries the encoding's length
  (generator/generator.go:70), which is proved to be 44.
- Lengths 0 to 3 with special characters on panic at
  generator/generator.go:77; no other policy is given to them.

## Model

| member | source | states |
|---|---|---|
| Base64.CharOfTable | generator/generator.go:67 | the character written for each 6-bit value v is entry v of the standard's 64-character alphabet table |
| Base64.IndexOfCharOf | generator/generator.go:67 | the decoding table maps the character for v back to v, and that character is never `=` |
| Base64.CharOfIndexOf | generator/generator.go:67 | every character the decoding table accepts is the character written for its value |
| Base64.InAlphabetIsTable | generator/generator.go:67 | a character is accepted by the decoding table iff it occurs in the 64-character alphabet |
| Base64.Encode | generator/generator.go:67 | encoding n bytes yields 4·⌈n/3⌉ characters |
| Base64.EncodeShape | generator/generator.go:67 | every encoded character is an alphabet character or `=`, and `=` appears exactly in the last (3 − n mod 3) mod 3 positions |
| Base64.RoundTrip | generator/generator.go:67 | decoding the encoding of any byte sequence gives that sequence back |
| Base64.EncodeInjective | generator/generator.go:67 | distinct digests have distinct encodings |
| Base64.RfcTestVectors | generator/generator.go:67 | the encoder reproduces the standard's vectors for "f", "fo", "foo" and "foobar" |
| SpecialChars.SpecialCharacters | generator/generator.go:35-44 | the selected suffix is always one of the six table entries and has length 4 |
| SpecialChars.VowelCountIsPositions | generator/generator.go:39-42 | adding the per-vowel counts of the lower-cased text gives exactly the number of positions holding a vowel of either case |
| SpecialChars.SpecialCharactersByPosition | generator/generator.go:38-44 | the selected group is the table entry at (number of vowel positions) mod 6 |
| SpecialChars.CaseInsensitive | generator/generator.go:41 | two texts that differ only in ASCII letter case select the same group |
| SpecialChars.GetSpecialCharacters | generator/generator.go:38-44 | the source's loop over the vowels, with an explicit loop in place of `strings.Count`, returns the same group as `SpecialCharacters`: the table entry at (number of vowel positions) mod 6, of length 4 |
| Generator.DefaultSettings | generator/generator.go:29-32 | defaults are length 12 and special characters on, with empty master phrase, domain and additional info |
| Generator.ValidateSettings | generator/generator.go:47-56 | no error iff master phrase and domain are both non-empty; `EmptyPass` iff the master phrase is empty; `EmptyDomain` iff only the domain is empty |
| Generator.Plaintext | generator/generator.go:64 | the hashed bytes are the master phrase, `:`, the domain, `:`, the additional info, with both colons present even when the additional info is empty |
| Generator.PlaintextSplits | generator/generator.go:64 | splitting the plaintext at its first two colons recovers the three fields when master phrase and domain contain no colon |
| Generator.PlaintextInjective | generator/generator.go:64 | settings with colon-free master phrase and domain that share a plaintext have the same three fields |
| Generator.PlaintextAmbiguous | generator/generator.go:64 | with a colon inside a field, different settings can share a plaintext |
| Generator.Generate | generator/generator.go:59-81 | a password is returned iff the settings are valid, 0 ≤ length ≤ 44, and the length is at least 4 when special characters are on; it then has exactly the requested length; a validation error is returned unchanged; `TooLong(44)` iff valid with length above 44; each panic iff its slice is out of range |
| Generator.DigestEncoding | generator/generator.go:66-67 | the encoding of any 32-byte digest has 44 characters: 43 alphabet characters, then one `=` |
| Generator.DefaultSettingsRejected | generator/generator.go:59-62 | deriving from the default settings fails with `EmptyPass`, whatever the hash |
| Generator.ValidationPrecedence | generator/generator.go:47-62 | an empty master phrase yields `EmptyPass` whatever else holds; a non-empty master phrase with an empty domain yields `EmptyDomain` |
| Generator.FailureIgnoresHash | generator/generator.go:59-71 | validation failures and the too-long error give the same error for any two hash functions: no password, and nothing depends on the digest |
| Generator.HashesOnlyPlaintext | generator/generator.go:64-67 | the outcome depends on the hash only through its value on the canonical plaintext |
| Generator.PlainPassword | generator/generator.go:73-80 | with special characters off and 0 ≤ length ≤ 44, the password is exactly the first `PasswordLength` characters of the encoded digest |
| Generator.PlainPasswordAlphabet | generator/generator.go:67-80 | with special characters off and length below 44, every password character is a base-64 alphabet character |
| Generator.SpecialPassword | generator/generator.go:73-78 | with special characters on and 4 ≤ length ≤ 44, the password has the requested length; all but its last 4 characters are the encoded digest's prefix; the last 4 are the table entry chosen by the vowels of the full 44-character encoding |

## Left out

- SHA-256 itself (`crypto/sha256`): it is the parameter `sha256`, constrained only to return 32 bytes. Avalanche and sensitivity properties are out of reach. So is a pinned golden password, which would need the real digest.
- The text of the error messages built with `errors.New` and `fmt.Errorf`: errors are the datatype `GenError` (`EmptyPass`, `EmptyDomain`, `TooLong(limit)`).
- SpecialChars.ToLower: ASCII lower-casing only, not Go's full Unicode `strings.ToLower`. Its input is always base-64 output, which is ASCII, so the two agree wherever the source uses it.
- The final `[]byte(...)` conversion of the password: the password is kept as an ASCII `string`.
- Go's `int` width for `PasswordLength`: it is an unbounded integer. Every value above 44 is an error and every negative value that passes validation panics, so no wrap-around is reachable.
- Determinism needs no lemma: `Generate` is a mathematical function of the settings and the hash.
- Base64.Decode is only the encoder's partner, not a model of Go's decoder. It accepts final groups whose unused bits are not zero, and only `Decode(Encode(b)) == Some(b)` is stated about it.
