/** Character and string operations the services rely on, restricted to ASCII:
    lower-casing, counting occurrences, and (case-sensitive or case-insensitive)
    suffix tests on file names. */
module Text {

  /** ASCII lower-casing: 'A'..'Z' become 'a'..'z', every other character is kept. */
  function ToLower(c: char): char
  {
    if 'A' <= c <= 'Z' then (c as int - 'A' as int + 'a' as int) as char else c
  }

  /** The upper-case partner of a lower-case ASCII letter. */
  function ToUpper(c: char): char
    requires 'a' <= c <= 'z'
  {
    (c as int - 'a' as int + 'A' as int) as char
  }

  /** `s` lower-cased character by character. */
  function Lower(s: string): string
  {
    seq(|s|, i requires 0 <= i < |s| => ToLower(s[i]))
  }

  /** Number of positions of `s` that hold `c`. */
  function Occurrences(s: string, c: char): nat
  {
    if |s| == 0 then 0
    else Occurrences(s[..|s| - 1], c) + (if s[|s| - 1] == c then 1 else 0)
  }

  /** Case-sensitive (ordinal) suffix test. */
  predicate EndsWith(name: string, suffix: string)
  {
    |suffix| <= |name| && name[|name| - |suffix|..] == suffix
  }

  /** Suffix test that ignores ASCII case. */
  predicate EndsWithIgnoreCase(name: string, suffix: string)
  {
    |suffix| <= |name| && Lower(name[|name| - |suffix|..]) == Lower(suffix)
  }

  lemma LowerAppend(a: string, b: string)
    ensures Lower(a + b) == Lower(a) + Lower(b)
  {
    assert forall i :: 0 <= i < |a + b| ==> Lower(a + b)[i] == (Lower(a) + Lower(b))[i];
  }

  /** Lower-casing maps both cases of a letter onto the lower-case one: the count of a
      lower-case letter in the folded text is the sum of its two spellings in the original. */
  lemma {:induction false} LowerMergesCases(s: string, c: char)
    requires 'a' <= c <= 'z'
    ensures Occurrences(Lower(s), c) == Occurrences(s, c) + Occurrences(s, ToUpper(c))
  {
    if |s| > 0 {
      var t := s[..|s| - 1];
      LowerMergesCases(t, c);
      assert Lower(s) == Lower(t) + [ToLower(s[|s| - 1])];
      assert Lower(s)[..|s| - 1] == Lower(t);
    }
  }

  /** Lower-casing never produces an upper-case ASCII letter. */
  lemma LowerHasNoCapitals(s: string, i: int)
    requires 0 <= i < |s|
    ensures !('A' <= Lower(s)[i] <= 'Z')
  {
  }

  /** The case-sensitive test agrees with "the name is some prefix followed by the suffix". */
  lemma EndsWithIsConcatenation(name: string, suffix: string)
    ensures EndsWith(name, suffix) <==> exists p :: name == p + suffix
  {
    if EndsWith(name, suffix) {
      var p := name[..|name| - |suffix|];
      assert name == p + suffix;
    }
    if exists p :: name == p + suffix {
      var p :| name == p + suffix;
      assert name[|name| - |suffix|..] == suffix;
    }
  }

  /** The case-insensitive test agrees with "the lower-cased name is some prefix followed by
      the lower-cased suffix". */
  lemma EndsWithIgnoreCaseIsConcatenation(name: string, suffix: string)
    ensures EndsWithIgnoreCase(name, suffix) <==> exists p :: Lower(name) == p + Lower(suffix)
  {
    if |suffix| <= |name| {
      var k := |name| - |suffix|;
      assert name == name[..k] + name[k..];
      LowerAppend(name[..k], name[k..]);
      if EndsWithIgnoreCase(name, suffix) {
        assert Lower(name) == Lower(name[..k]) + Lower(suffix);
      }
      if exists p :: Lower(name) == p + Lower(suffix) {
        var p :| Lower(name) == p + Lower(suffix);
        assert Lower(name)[k..] == Lower(suffix);
      }
    }
  }

  /** A case-sensitive match is also a case-insensitive one. */
  lemma EndsWithImpliesIgnoreCase(name: string, suffix: string)
    requires EndsWith(name, suffix)
    ensures EndsWithIgnoreCase(name, suffix)
  {
  }

  lemma {:induction false} OccurrencesAppend(a: string, b: string, c: char)
    ensures Occurrences(a + b, c) == Occurrences(a, c) + Occurrences(b, c)
  {
    if |b| > 0 {
      OccurrencesAppend(a, b[..|b| - 1], c);
      assert (a + b)[..|a + b| - 1] == a + b[..|b| - 1];
    } else {
      assert a + b == a;
    }
  }

  /** Counting occurrences is the multiplicity of the character in the text's multiset. */
  lemma {:induction false} OccurrencesIsMultiplicity(s: string, c: char)
    ensures Occurrences(s, c) == multiset(s)[c]
  {
    if |s| > 0 {
      OccurrencesIsMultiplicity(s[..|s| - 1], c);
      assert s == s[..|s| - 1] + [s[|s| - 1]];
    }
  }
}
