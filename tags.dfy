/**
 * Meeting levels and room tags. A request names its meeting level; a room carries
 * one free-text tag. Eligibility is decided by comparing the two as strings.
 */
module Tags {

  /** The request level for a provincial-company meeting. */
  const ProvincialLevel: string := "省公司会议"

  /** The request level for a headquarters meeting. */
  const HeadquartersLevel: string := "总部会议"

  /** The tag of rooms reserved for provincial meetings only; matched by equality. */
  const ExclusiveProvincialTag: string := "省公司会议（不可兼容总部会议）"

  /** The text that marks a room usable by provincial meetings; matched anywhere in the tag. */
  const CompatiblePattern: string := "可兼容省公司会议"

  /**
   * `p` occurs somewhere in `s`: the store's `like.*p*` filter (the pattern holds
   * neither `_` nor `%`, so it is a plain substring test).
   */
  predicate Contains(s: string, p: string)
    decreases |s|
  {
    (|p| <= |s| && s[..|p|] == p) || (s != [] && Contains(s[1..], p))
  }

  /** Reference definition: `p` occurs in `s` starting at position `i`. */
  ghost predicate OccursAt(s: string, p: string, i: int)
  {
    0 <= i && i + |p| <= |s| && s[i..i + |p|] == p
  }

  /** An occurrence in the tail is an occurrence one position further in the whole string. */
  lemma OccursInTail(s: string, p: string, i: int)
    requires s != [] && OccursAt(s[1..], p, i)
    ensures OccursAt(s, p, i + 1)
  {
    forall j | 0 <= j < |p|
      ensures s[i + 1..i + 1 + |p|][j] == p[j]
    {
      assert s[1..][i..i + |p|][j] == p[j];
    }
  }

  lemma OccursPastHead(s: string, p: string, i: int)
    requires i > 0 && OccursAt(s, p, i)
    ensures OccursAt(s[1..], p, i - 1)
  {
    forall j | 0 <= j < |p|
      ensures s[1..][i - 1..i - 1 + |p|][j] == p[j]
    {
      assert s[i..i + |p|][j] == p[j];
    }
  }

  lemma {:induction false} ContainsHasOccurrence(s: string, p: string)
    requires Contains(s, p)
    ensures exists i :: OccursAt(s, p, i)
    decreases |s|
  {
    if |p| <= |s| && s[..|p|] == p {
      assert s[0..|p|] == s[..|p|];
      assert OccursAt(s, p, 0);
    } else {
      ContainsHasOccurrence(s[1..], p);
      var i :| OccursAt(s[1..], p, i);
      OccursInTail(s, p, i);
    }
  }

  lemma {:induction false} OccurrenceIsContained(s: string, p: string, i: int)
    requires OccursAt(s, p, i)
    ensures Contains(s, p)
    decreases i
  {
    if i == 0 {
      assert s[..|p|] == s[0..|p|];
    } else {
      OccursPastHead(s, p, i);
      OccurrenceIsContained(s[1..], p, i - 1);
    }
  }

  lemma ContainsIffOccurs(s: string, p: string)
    ensures Contains(s, p) <==> exists i :: OccursAt(s, p, i)
  {
    if Contains(s, p) {
      ContainsHasOccurrence(s, p);
    }
    if exists i :: OccursAt(s, p, i) {
      var i :| OccursAt(s, p, i);
      OccurrenceIsContained(s, p, i);
    }
  }

  lemma {:induction false} ShorterNeverContains(s: string, p: string)
    requires |s| < |p|
    ensures !Contains(s, p)
    decreases |s|
  {
    if s != [] {
      ShorterNeverContains(s[1..], p);
    }
  }

  /** No suffix of the exclusive tag from position `k` on starts with the compatible pattern. */
  lemma {:induction false} ExclusiveSuffixNotCompatible(k: nat)
    requires k <= |ExclusiveProvincialTag|
    ensures !Contains(ExclusiveProvincialTag[k..], CompatiblePattern)
    decreases |ExclusiveProvincialTag| - k
  {
    var s, p := ExclusiveProvincialTag, CompatiblePattern;
    if k >= 8 {
      ShorterNeverContains(s[k..], p);
    } else {
      ExclusiveSuffixNotCompatible(k + 1);
      assert s[k..][1..] == s[k + 1..];
      if k == 7 {
        assert s[k..][3] == s[10] != p[3];
      } else {
        assert s[k..][0] == s[k] != p[0];
      }
    }
  }

  /**
   * The exclusive tag does not contain the compatible pattern, so a room tagged
   * exclusive is never in the compatible pool.
   */
  lemma ExclusiveTagIsNotCompatible()
    ensures !Contains(ExclusiveProvincialTag, CompatiblePattern)
  {
    ExclusiveSuffixNotCompatible(0);
    assert ExclusiveProvincialTag[0..] == ExclusiveProvincialTag;
  }
}
