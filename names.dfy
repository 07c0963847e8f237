/** The string helpers the cleaner relies on: ASCII lower-casing
    (`str.lower`), `str.rfind`, pathlib's `suffix`, and decimal rendering
    of a count (`f"{n}"`). */
module Names {

  /** Lower-cases one ASCII upper-case letter; every other character is kept. */
  function LowerChar(c: char): (r: char)
    ensures 'A' <= c <= 'Z' ==> 'a' <= r <= 'z' && r as int == c as int + 32
    ensures !('A' <= c <= 'Z') ==> r == c
    ensures !('A' <= r <= 'Z')
  {
    if 'A' <= c <= 'Z' then (c as int + 32) as char else c
  }

  /** `s.lower()`, restricted to ASCII letters. Its properties are stated by
      `LowerSpec`, so that every use of a name test does not bring them in. */
  function Lower(s: string): string {
    if s == [] then [] else [LowerChar(s[0])] + Lower(s[1..])
  }

  /** Lower-casing works character by character. */
  lemma {:induction false} LowerSpec(s: string)
    ensures |Lower(s)| == |s|
    ensures forall i :: 0 <= i < |s| ==> Lower(s)[i] == LowerChar(s[i])
    decreases |s|
  {
    if s != [] {
      LowerSpec(s[1..]);
    }
  }

  /** A string is lower-case when lower-casing leaves it unchanged. */
  predicate IsLower(s: string) {
    forall i :: 0 <= i < |s| ==> !('A' <= s[i] <= 'Z')
  }

  lemma LowerIsLower(s: string)
    ensures IsLower(Lower(s))
    ensures Lower(Lower(s)) == Lower(s)
  {
    LowerSpec(s);
    LowerSpec(Lower(s));
  }

  lemma LowerKeepsLower(s: string)
    requires IsLower(s)
    ensures Lower(s) == s
  {
    LowerSpec(s);
  }

  /** `s.rfind(c)`: the index of the last occurrence of `c`, or -1. */
  function RFind(s: string, c: char): int
    decreases |s|
  {
    if s == [] then -1
    else if s[|s| - 1] == c then |s| - 1
    else RFind(s[..|s| - 1], c)
  }

  lemma {:induction false} RFindSpec(s: string, c: char)
    ensures -1 <= RFind(s, c) < |s|
    ensures RFind(s, c) == -1 <==> c !in s
    ensures RFind(s, c) >= 0 ==> s[RFind(s, c)] == c
    ensures forall j :: RFind(s, c) < j < |s| ==> s[j] != c
    decreases |s|
  {
    if s != [] && s[|s| - 1] != c {
      var t := s[..|s| - 1];
      RFindSpec(t, c);
      assert s == t + [s[|s| - 1]];
    }
  }

  /** pathlib's `PurePath.suffix` applied to a final path component: the text
      from the last dot on, provided that dot is neither the first nor the
      last character; otherwise the empty string. */
  function Suffix(name: string): string {
    var i := RFind(name, '.');
    if 0 < i < |name| - 1 then name[i..] else ""
  }

  /** A non-empty suffix is a proper tail of the name: a dot followed by at
      least one character and no further dot. */
  lemma SuffixShape(name: string)
    ensures var r := Suffix(name);
      r == "" || (2 <= |r| < |name| && r[0] == '.' && '.' !in r[1..] && name[|name| - |r|..] == r)
  {
    RFindSpec(name, '.');
    var i := RFind(name, '.');
    if 0 < i < |name| - 1 {
      var r := name[i..];
      forall j | 0 <= j < |r| - 1
        ensures r[1..][j] != '.'
      {
        assert r[1..][j] == name[i + 1 + j];
      }
    }
  }

  /** A name whose only dot is its leading one (`.DS_Store`) has no suffix. */
  lemma LeadingDotOnlyHasNoSuffix(name: string)
    requires |name| > 0 && name[0] == '.' && '.' !in name[1..]
    ensures Suffix(name) == ""
  {
    RFindSpec(name, '.');
    forall j | 0 < j < |name|
      ensures name[j] != '.'
    {
      assert name[1..][j - 1] == name[j];
    }
  }

  /** A name with a dot strictly inside it has exactly the text after its last
      dot, dot included, as suffix. */
  lemma SuffixOfInnerDot(stem: string, ext: string)
    requires |stem| > 0 && |ext| > 0 && '.' !in ext
    ensures Suffix(stem + "." + ext) == "." + ext
  {
    var name := stem + "." + ext;
    RFindSpec(name, '.');
    var i := RFind(name, '.');
    assert name[|stem|] == '.';
    forall j | |stem| < j < |name|
      ensures name[j] != '.'
    {
      assert name[j] == ext[j - |stem| - 1];
    }
    assert i == |stem|;
    assert name[i..] == "." + ext;
  }

  lemma DsStoreHasNoSuffix()
    ensures Suffix(".DS_Store") == ""
  {
    LeadingDotOnlyHasNoSuffix(".DS_Store");
  }

  /** The number a string of decimal digits denotes, most significant
      digit first. */
  function DigitsValue(s: string): int
    decreases |s|
  {
    if s == [] then 0 else 10 * DigitsValue(s[..|s| - 1]) + (s[|s| - 1] as int - '0' as int)
  }

  /** The decimal digits of `n`, as `str(n)` prints them: they denote `n`,
      and only zero itself starts with the digit zero. */
  function NatToString(n: nat): (r: string)
    ensures |r| > 0
    ensures forall i :: 0 <= i < |r| ==> '0' <= r[i] <= '9'
    ensures DigitsValue(r) == n
    ensures r[0] == '0' ==> n == 0
    decreases n
  {
    var digit := ['0' + (n % 10) as char];
    if n < 10 then digit
    else
      var r := NatToString(n / 10) + digit;
      assert r[..|r| - 1] == NatToString(n / 10);
      r
  }
}
