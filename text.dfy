/**
 * The string operations the catalog searches use: `toLowerCase` and
 * `contains`, on ASCII text.
 */
module Text {

  /** `Character.toLowerCase` on ASCII: `A`..`Z` become `a`..`z`, every other character is kept. */
  function LowerChar(ch: char): char {
    if 'A' <= ch <= 'Z' then (ch as int - 'A' as int + 'a' as int) as char else ch
  }

  /** `String.toLowerCase`, character by character: no upper-case ASCII letter is left. */
  function ToLower(s: string): (r: string)
    ensures |r| == |s|
    ensures forall i :: 0 <= i < |s| ==> r[i] == LowerChar(s[i])
    ensures forall i :: 0 <= i < |r| ==> !('A' <= r[i] <= 'Z')
  {
    seq(|s|, i requires 0 <= i < |s| => LowerChar(s[i]))
  }

  /** `needle` appears in `hay` starting at index `i`. */
  predicate OccursAt(hay: string, needle: string, i: int) {
    0 <= i && i + |needle| <= |hay| && hay[i..i + |needle|] == needle
  }

  /**
   * `String.contains`: try the needle as a prefix, then at every later start.
   * The empty needle is found everywhere, and a needle longer than the
   * haystack nowhere.
   */
  function Contains(hay: string, needle: string): (found: bool)
    ensures needle == [] ==> found
    ensures found ==> |needle| <= |hay|
    decreases |hay|
  {
    if needle <= hay then true
    else if hay == [] then false
    else Contains(hay[1..], needle)
  }

  /** The search test of the catalog: lower-cased `hay` contains lower-cased `needle`. */
  predicate ContainsIgnoringCase(hay: string, needle: string) {
    Contains(ToLower(hay), ToLower(needle))
  }

  /** `Contains` holds exactly when the needle occurs at some index of the haystack. */
  lemma {:induction false} ContainsOccurs(hay: string, needle: string)
    ensures Contains(hay, needle) <==> exists i :: OccursAt(hay, needle, i)
    decreases |hay|
  {
    if needle <= hay {
      assert OccursAt(hay, needle, 0);
    } else if hay == [] {
      assert forall i :: !OccursAt(hay, needle, i);
    } else {
      ContainsOccurs(hay[1..], needle);
      if i :| OccursAt(hay[1..], needle, i) {
        assert hay[1..][i..i + |needle|] == hay[i + 1..i + 1 + |needle|];
        assert OccursAt(hay, needle, i + 1);
      }
      if i :| OccursAt(hay, needle, i) {
        assert i != 0;
        assert hay[1..][i - 1..i - 1 + |needle|] == hay[i..i + |needle|];
        assert OccursAt(hay[1..], needle, i - 1);
      }
    }
  }


  /** An exact occurrence is also an occurrence once both sides are lower-cased. */
  lemma ContainsIgnoringCaseOfContains(hay: string, needle: string)
    requires Contains(hay, needle)
    ensures ContainsIgnoringCase(hay, needle)
  {
    ContainsOccurs(hay, needle);
    var i :| OccursAt(hay, needle, i);
    var lh, ln := ToLower(hay), ToLower(needle);
    assert lh[i..i + |ln|] == ln by {
      forall k | 0 <= k < |ln| ensures lh[i..i + |ln|][k] == ln[k] {
        assert hay[i..i + |needle|][k] == needle[k];
      }
    }
    assert OccursAt(lh, ln, i);
    ContainsOccurs(lh, ln);
  }


  /** The empty query occurs in every text, and every text occurs in itself. */
  lemma ContainsEmptyAndSelf(s: string)
    ensures ContainsIgnoringCase(s, "")
    ensures ContainsIgnoringCase(s, s)
  {
  }
}
