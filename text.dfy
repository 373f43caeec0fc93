/** Case-insensitive substring matching used by the title search.
    Lower-casing is ASCII only: letters 'A'..'Z' map to 'a'..'z',
    every other character is left as it is. */
module Text {

  /** True for the 26 upper-case ASCII letters. */
  predicate IsUpper(c: char) {
    'A' <= c <= 'Z'
  }

  /** ASCII lower-casing of one character. */
  function LowerChar(c: char): (r: char)
    ensures !IsUpper(r)
    ensures IsUpper(c) ==> r as int - c as int == 'a' as int - 'A' as int
    ensures !IsUpper(c) ==> r == c
  {
    if IsUpper(c) then (c as int - 'A' as int + 'a' as int) as char else c
  }

  /** Lower-casing of a string, character by character. */
  function Lower(s: string): (r: string)
    ensures |r| == |s|
    ensures forall i :: 0 <= i < |s| ==> r[i] == LowerChar(s[i])
  {
    if |s| == 0 then [] else [LowerChar(s[0])] + Lower(s[1..])
  }

  predicate IsPrefix(p: string, s: string) {
    |p| <= |s| && s[..|p|] == p
  }

  /** `needle` occurs somewhere in `hay`, found by trying each start position in turn. */
  predicate Contains(hay: string, needle: string)
    decreases |hay|
  {
    IsPrefix(needle, hay) || (|hay| > 0 && Contains(hay[1..], needle))
  }

  /** `needle` occurs in `hay` starting at position `k`. */
  predicate OccursAt(hay: string, needle: string, k: int) {
    0 <= k && k + |needle| <= |hay| && hay[k..k + |needle|] == needle
  }

  /** The scan agrees with the direct definition of a substring:
      some slice of `hay` equals `needle`. */
  lemma {:induction false} ContainsIff(hay: string, needle: string)
    ensures Contains(hay, needle) <==> exists k :: OccursAt(hay, needle, k)
    decreases |hay|
  {
    if IsPrefix(needle, hay) {
      assert OccursAt(hay, needle, 0);
    } else if |hay| == 0 {
    } else {
      ContainsIff(hay[1..], needle);
      if Contains(hay[1..], needle) {
        var k :| OccursAt(hay[1..], needle, k);
        assert hay[k + 1..k + 1 + |needle|] == hay[1..][k..k + |needle|];
        assert OccursAt(hay, needle, k + 1);
      }
      if exists k :: OccursAt(hay, needle, k) {
        var k :| OccursAt(hay, needle, k);
        if k == 0 {
          assert false;
        }
        assert hay[1..][k - 1..k - 1 + |needle|] == hay[k..k + |needle|];
        assert OccursAt(hay[1..], needle, k - 1);
      }
    }
  }

  /** Every string contains the empty string. */
  lemma EmptyContained(hay: string)
    ensures Contains(hay, "")
  {
    assert hay[..0] == "";
  }

  /** A needle with a character that does not occur in `hay` is not contained in it. */
  lemma MissingChar(hay: string, needle: string, j: nat)
    requires j < |needle| && needle[j] !in hay
    ensures !Contains(hay, needle)
  {
    ContainsIff(hay, needle);
    forall k | 0 <= k ensures !OccursAt(hay, needle, k) {
      if k + |needle| <= |hay| {
        assert hay[k..k + |needle|][j] == hay[k + j];
      }
    }
  }

  /** Matching `needle` at position `k` ignoring case means a case-insensitive
      substring match. */
  lemma MatchAt(hay: string, needle: string, k: nat)
    requires k + |needle| <= |hay|
    requires forall j :: 0 <= j < |needle| ==> LowerChar(hay[k + j]) == LowerChar(needle[j])
    ensures Contains(Lower(hay), Lower(needle))
  {
    var h, n := Lower(hay), Lower(needle);
    assert h[k..k + |n|] == n;
    assert OccursAt(h, n, k);
    ContainsIff(h, n);
  }

  /** When some character of `needle` equals no character of `hay` up to
      case, there is no case-insensitive match. */
  lemma NoMatchOfChar(hay: string, needle: string, j: nat)
    requires j < |needle|
    requires forall i :: 0 <= i < |hay| ==> LowerChar(hay[i]) != LowerChar(needle[j])
    ensures !Contains(Lower(hay), Lower(needle))
  {
    MissingChar(Lower(hay), Lower(needle), j);
  }
}
