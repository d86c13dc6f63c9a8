/**
  Selection of the special-character suffix (`getSpecialCharacters` in
  generator/generator.go): the vowels `aeiouy` are counted case-insensitively
  over the encoded digest, and the count modulo six indexes a fixed table of
  four-character groups.
*/
module SpecialChars {

  /** The vowels the selector counts, in the order the source visits them. */
  const Vowels: string := "aeiouy"

  /** The six groups, in source order; the order is part of every derived password. */
  const Groups: seq<string> := ["`~]'", "!&^#", ")(*$", "[ -=", "@%.;", "<,}+"]

  /** Length of every group, and so of the suffix the generator overwrites. */
  const GroupLength: nat := 4

  /** ASCII lower-casing of one character; other characters are left alone. */
  function ToLower(c: char): char
  {
    if 'A' <= c <= 'Z' then (c as int - 'A' as int + 'a' as int) as char else c
  }

  /** ASCII case swap of a letter; other characters are left alone. */
  function SwapCase(c: char): char
  {
    if 'A' <= c <= 'Z' then ToLower(c)
    else if 'a' <= c <= 'z' then (c as int - 'a' as int + 'A' as int) as char
    else c
  }

  /** Lower-casing of a string, character by character. */
  function Lower(s: string): (r: string)
    ensures |r| == |s|
  {
    seq(|s|, i requires 0 <= i < |s| => ToLower(s[i]))
  }

  /** Number of occurrences of c in s: what `strings.Count` returns for a one-character pattern. */
  function Count(s: string, c: char): nat
  {
    if |s| == 0 then 0
    else Count(s[..|s| - 1], c) + (if s[|s| - 1] == c then 1 else 0)
  }

  /** The sum, over the characters of vs, of their occurrence counts in s. */
  function CountEach(s: string, vs: string): nat
  {
    if |vs| == 0 then 0
    else CountEach(s, vs[..|vs| - 1]) + Count(s, vs[|vs| - 1])
  }

  /** The vowel count as the source computes it: one `strings.Count` per vowel over the lower-cased text. */
  function VowelCount(s: string): nat
  {
    CountEach(Lower(s), Vowels)
  }

  /** Reference definition: the number of positions whose character is a vowel of either case. */
  function VowelPositions(s: string): nat
  {
    if |s| == 0 then 0
    else VowelPositions(s[..|s| - 1]) + (if ToLower(s[|s| - 1]) in Vowels then 1 else 0)
  }

  /** The group `getSpecialCharacters` returns for the encoded digest. */
  function SpecialCharacters(encoded: string): (g: string)
    ensures g in Groups
    ensures |g| == GroupLength
  {
    Groups[VowelCount(encoded) % |Groups|]
  }

  /** No character occurs twice. */
  predicate Distinct(vs: string)
  {
    forall i, j | 0 <= i < j < |vs| :: vs[i] != vs[j]
  }

  /** Appending one character adds one to the per-character counts exactly when it is one of them. */
  lemma {:induction false} CountEachSnoc(s: string, c: char, vs: string)
    requires Distinct(vs)
    ensures CountEach(s + [c], vs) == CountEach(s, vs) + (if c in vs then 1 else 0)
    decreases |vs|
  {
    if |vs| > 0 {
      var init, v := vs[..|vs| - 1], vs[|vs| - 1];
      assert Distinct(init);
      CountEachSnoc(s, c, init);
      assert (s + [c])[..|s|] == s;
      assert c in vs <==> c in init || c == v by {
        assert vs == init + [v];
      }
    }
  }

  /** Nothing occurs in the empty text. */
  lemma {:induction false} CountEachEmpty(vs: string)
    ensures CountEach([], vs) == 0
    decreases |vs|
  {
    if |vs| > 0 {
      CountEachEmpty(vs[..|vs| - 1]);
    }
  }

  /**
    Summing `strings.Count` over the six vowels counts each position of the
    text at most once: the source's vowel count is the number of positions
    holding a vowel, upper- or lower-case.
  */
  lemma {:induction false} VowelCountIsPositions(s: string)
    ensures VowelCount(s) == VowelPositions(s)
    decreases |s|
  {
    if |s| == 0 {
      CountEachEmpty(Vowels);
    } else {
      var init, c := s[..|s| - 1], ToLower(s[|s| - 1]);
      VowelCountIsPositions(init);
      assert Lower(s) == Lower(init) + [c];
      assert Distinct(Vowels);
      CountEachSnoc(Lower(init), c, Vowels);
      assert VowelCount(s) == VowelCount(init) + (if c in Vowels then 1 else 0);
      assert VowelPositions(s) == VowelPositions(init) + (if c in Vowels then 1 else 0);
    }
  }

  /** The table index is the number of vowel positions of the full encoding, modulo six. */
  lemma SpecialCharactersByPosition(encoded: string)
    ensures SpecialCharacters(encoded) == Groups[VowelPositions(encoded) % 6]
  {
    VowelCountIsPositions(encoded);
  }

  /** True when t is s with some ASCII letters switched to the other case. */
  predicate SameUpToCase(s: string, t: string)
  {
    |s| == |t| && forall i | 0 <= i < |s| :: t[i] == s[i] || t[i] == SwapCase(s[i])
  }

  /** Texts that differ only in letter case select the same group. */
  lemma CaseInsensitive(s: string, t: string)
    requires SameUpToCase(s, t)
    ensures SpecialCharacters(s) == SpecialCharacters(t)
  {
    assert Lower(s) == Lower(t) by {
      forall i | 0 <= i < |s|
        ensures ToLower(s[i]) == ToLower(t[i])
      {
      }
    }
  }

  /**
    The selector as the source writes it: a loop over the vowels that adds
    each vowel's occurrence count in the lower-cased text (an explicit loop
    stands in for `strings.Count`), then indexes the table by the total
    modulo the table size. It agrees with `SpecialCharacters`.
  */
  method GetSpecialCharacters(encrypted: string) returns (group: string)
    ensures group == SpecialCharacters(encrypted)
    ensures group == Groups[VowelPositions(encrypted) % |Groups|]
    ensures |group| == GroupLength
  {
    var vowelCount := 0;
    var k := 0;
    while k < |Vowels|
      invariant 0 <= k <= |Vowels|
      invariant vowelCount == CountEach(Lower(encrypted), Vowels[..k])
    {
      var lowered := Lower(encrypted);
      var v := Vowels[k];
      var n := 0;
      var i := 0;
      while i < |lowered|
        invariant 0 <= i <= |lowered|
        invariant n == Count(lowered[..i], v)
      {
        assert lowered[..i + 1][..i] == lowered[..i];
        if lowered[i] == v {
          n := n + 1;
        }
        i := i + 1;
      }
      assert lowered[..i] == lowered;
      assert Vowels[..k + 1][..k] == Vowels[..k];
      vowelCount := vowelCount + n;
      k := k + 1;
    }
    assert Vowels[..k] == Vowels;
    VowelCountIsPositions(encrypted);
    group := Groups[vowelCount % |Groups|];
  }
}
