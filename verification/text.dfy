/** The few `java.lang.String` operations the command-line front end relies on:
    `contains`, `lastIndexOf` of a one-character string, and `replace` of one
    character sequence by another. */
module Text {
  import opened Results

  /** `t` occurs in `s` starting at index `i`. */
  predicate OccursAt(s: string, t: string, i: nat) {
    i + |t| <= |s| && s[i..i + |t|] == t
  }

  /** Occurrences in `s[1..]` are the occurrences in `s` shifted by one. */
  lemma OccursShift(s: string, t: string)
    requires |s| > 0
    ensures forall i: nat {:trigger OccursAt(s[1..], t, i)} :: OccursAt(s[1..], t, i) <==> OccursAt(s, t, i + 1)
  {
    forall i: nat
      ensures OccursAt(s[1..], t, i) <==> OccursAt(s, t, i + 1)
    {
      if i + 1 + |t| <= |s| {
        assert s[1..][i..i + |t|] == s[i + 1..i + 1 + |t|];
      }
    }
  }

  /** Away from index 0, the occurrences in `s` are those of `s[1..]`. */
  lemma OccursInTail(s: string, t: string)
    requires |s| > 0 && !OccursAt(s, t, 0)
    ensures (exists i: nat :: OccursAt(s, t, i)) <==> (exists i: nat :: OccursAt(s[1..], t, i))
  {
    OccursShift(s, t);
    if i: nat :| OccursAt(s, t, i) {
      assert OccursAt(s[1..], t, i - 1);
    }
    if i: nat :| OccursAt(s[1..], t, i) {
      assert OccursAt(s, t, i + 1);
    }
  }

  /** `String.contains`: a left-to-right search for `t` in `s`; the empty
      string is contained in every string. */
  function Contains(s: string, t: string): (r: bool)
    ensures r <==> exists i: nat :: OccursAt(s, t, i)
    decreases |s|
  {
    if t <= s then
      assert OccursAt(s, t, 0);
      true
    else if |s| == 0 then
      false
    else
      OccursInTail(s, t);
      Contains(s[1..], t)
  }

  /** `String.indexOf`, the left-to-right search `replace` uses: the first
      index where `t` occurs in `s`, or `None` where Java returns -1. */
  function IndexOf(s: string, t: string): (r: Option<nat>)
    ensures r.Some? ==> OccursAt(s, t, r.value)
    ensures r.Some? ==> forall j: nat :: j < r.value ==> !OccursAt(s, t, j)
    ensures r.None? <==> !Contains(s, t)
    decreases |s|
  {
    if t <= s then
      assert OccursAt(s, t, 0);
      Some(0)
    else if |s| == 0 then
      None
    else
      match IndexOf(s[1..], t)
      case None =>
        NotFoundFromTail(s, t);
        None
      case Some(k) =>
        FoundFromTail(s, t, k);
        Some(k + 1)
  }

  /** A string that does not start with `t`, and whose tail does not
      contain it, does not contain it. */
  lemma NotFoundFromTail(s: string, t: string)
    requires |s| > 0 && !(t <= s) && !Contains(s[1..], t)
    ensures !Contains(s, t)
  {
    assert !OccursAt(s, t, 0);
    OccursInTail(s, t);
  }

  /** In a string that does not start with `t`, the first occurrence in the
      tail is the first occurrence, one index further on. */
  lemma FoundFromTail(s: string, t: string, k: nat)
    requires |s| > 0 && !(t <= s) && OccursAt(s[1..], t, k)
    requires forall j: nat :: j < k ==> !OccursAt(s[1..], t, j)
    ensures OccursAt(s, t, k + 1) && Contains(s, t)
    ensures forall j: nat :: j < k + 1 ==> !OccursAt(s, t, j)
  {
    assert !OccursAt(s, t, 0);
    OccursShift(s, t);
    NoneEarlierFromTail(s, t, k);
  }

  /** `String.lastIndexOf` of a one-character string: the index of the last
      `c` in `s`, or `None` where Java returns -1. */
  function LastIndexOf(s: string, c: char): (r: Option<nat>)
    ensures r.Some? ==> r.value < |s| && s[r.value] == c
    ensures r.Some? ==> forall j :: r.value < j < |s| ==> s[j] != c
    ensures r.None? <==> c !in s
  {
    if |s| == 0 then None
    else if s[|s| - 1] == c then Some(|s| - 1)
    else
      assert s == s[..|s| - 1] + [s[|s| - 1]];
      LastIndexOf(s[..|s| - 1], c)
  }

  /** `String.replace(target, replacement)`: every non-overlapping occurrence
      of `t`, found from the left, is replaced by `r` (see `ReplaceAtFirst`
      and `ReplaceAbsent`). An empty `t` matches
      before every character and at the end, so `r` is inserted there. */
  function Replace(s: string, t: string, r: string): (res: string)
    ensures |t| == 0 ==> r <= res
    decreases |s|
  {
    if |t| == 0 then
      if |s| == 0 then r else r + [s[0]] + Replace(s[1..], t, r)
    else if t <= s then
      r + Replace(s[|t|..], t, r)
    else if |s| == 0 then
      ""
    else
      [s[0]] + Replace(s[1..], t, r)
  }

  /** With nothing to replace, `replace` returns the string unchanged. */
  lemma {:induction false} ReplaceAbsent(s: string, t: string, r: string)
    requires |t| > 0 && !Contains(s, t)
    ensures Replace(s, t, r) == s
    decreases |s|
  {
    if |s| > 0 {
      assert !OccursAt(s, t, 0);
      OccursInTail(s, t);
      ReplaceAbsent(s[1..], t, r);
      assert s == [s[0]] + s[1..];
    }
  }

  /** With an empty target, the empty string becomes the replacement alone. */
  lemma ReplaceEmptyOfEmpty(r: string)
    ensures Replace("", "", r) == r
  {
  }

  /** With an empty target, one character gets the replacement on both
      sides. */
  lemma ReplaceEmptyOne(c: char, r: string)
    ensures Replace([c], "", r) == r + [c] + r
  {
    assert [c][1..] == "";
  }

  /** With an empty target, replacing in `a + b` is replacing in `a`, then in
      `b` without its leading replacement, which `a`'s result already ends
      with. With `ReplaceEmptyOfEmpty` and `ReplaceEmptyOne` this fixes the
      empty-target case: the replacement goes before every character and
      at the end. */
  lemma {:induction false} ReplaceEmptyAppend(a: string, b: string, r: string)
    ensures Replace(a + b, "", r) == Replace(a, "", r) + Replace(b, "", r)[|r|..]
    decreases |a|
  {
    var rb := Replace(b, "", r);
    if |a| == 0 {
      assert a + b == b;
      assert rb == r + rb[|r|..];
    } else {
      assert (a + b)[0] == a[0] && (a + b)[1..] == a[1..] + b;
      ReplaceEmptyAppend(a[1..], b, r);
    }
  }

  /** Replacing a string by itself changes nothing. */
  lemma {:induction false} ReplaceBySelf(s: string, t: string)
    ensures Replace(s, t, t) == s
    decreases |s|
  {
    if |s| > 0 {
      if |t| == 0 {
        ReplaceBySelf(s[1..], t);
        assert Replace(s, t, t) == [s[0]] + s[1..];
      } else if t <= s {
        ReplaceAtMatch(s, t, t);
        ReplaceBySelf(s[|t|..], t);
        assert s == t + s[|t|..];
      } else {
        ReplaceAtMiss(s, t, t);
        ReplaceBySelf(s[1..], t);
        assert s == [s[0]] + s[1..];
      }
    }
  }

  /** Replacing by a string of the same length keeps the length. */
  lemma {:induction false} ReplaceKeepsLength(s: string, t: string, r: string)
    requires |t| == |r|
    ensures |Replace(s, t, r)| == |s|
    decreases |s|
  {
    if |s| > 0 {
      if |t| == 0 {
        ReplaceKeepsLength(s[1..], t, r);
      } else if t <= s {
        ReplaceKeepsLength(s[|t|..], t, r);
      } else {
        ReplaceKeepsLength(s[1..], t, r);
      }
    }
  }

  /** Replacing when `t` occurs at the very start of `s`. */
  lemma ReplaceAtMatch(s: string, t: string, r: string)
    requires |t| > 0 && t <= s
    ensures Replace(s, t, r) == r + Replace(s[|t|..], t, r)
  {
  }

  /** Replacing when `t` does not occur at the start of a non-empty `s`. */
  lemma ReplaceAtMiss(s: string, t: string, r: string)
    requires |t| > 0 && |s| > 0 && !(t <= s)
    ensures Replace(s, t, r) == [s[0]] + Replace(s[1..], t, r)
  {
  }

  /** When the only occurrence of `t` in `s` is the one that ends it,
      `replace` rewrites just that occurrence and keeps everything before it. */
  lemma {:induction false} ReplaceFinalOnly(s: string, t: string, r: string)
    requires 0 < |t| <= |s| && s[|s| - |t|..] == t
    requires forall i: nat :: i < |s| - |t| ==> !OccursAt(s, t, i)
    ensures Replace(s, t, r) == s[..|s| - |t|] + r
    decreases |s|
  {
    if |s| == |t| {
      assert t <= s;
      ReplaceAtMatch(s, t, r);
      assert s[|t|..] == [];
    } else {
      assert !OccursAt(s, t, 0);
      ReplaceAtMiss(s, t, r);
      FinalOnlyInTail(s, t);
      ReplaceFinalOnly(s[1..], t, r);
      PrefixOfTail(s, |s| - |t|);
    }
  }

  /** A prefix is the first character, then a prefix of the rest. */
  lemma PrefixOfTail(s: string, n: nat)
    requires 0 < n <= |s|
    ensures [s[0]] + s[1..][..n - 1] == s[..n]
  {
  }

  /** Dropping the first character keeps `t` occurring only at the end. */
  lemma FinalOnlyInTail(s: string, t: string)
    requires 0 < |t| < |s| && s[|s| - |t|..] == t
    requires forall i: nat :: i < |s| - |t| ==> !OccursAt(s, t, i)
    ensures s[1..][|s| - 1 - |t|..] == t
    ensures forall i: nat :: i < |s| - 1 - |t| ==> !OccursAt(s[1..], t, i)
  {
    OccursShift(s, t);
  }

  /** An occurrence keeps its place relative to the text around it. */
  lemma OccursAfterPrefix(p: string, x: string, t: string, i: nat)
    requires OccursAt(x, t, i)
    ensures OccursAt(p + x, t, |p| + i)
  {
    assert (p + x)[|p| + i..|p| + i + |t|] == x[i..i + |t|];
  }

  /** When there is something to replace, the replacement shows up in the
      result. */
  lemma {:induction false} ReplaceInserts(s: string, t: string, r: string)
    requires |t| == 0 || Contains(s, t)
    ensures Contains(Replace(s, t, r), r)
    decreases |s|
  {
    var out := Replace(s, t, r);
    if |t| == 0 || t <= s {
      if |t| > 0 {
        ReplaceAtMatch(s, t, r);
      }
      assert out[..|r|] == r;
      assert OccursAt(out, r, 0);
    } else {
      OccursInTail(s, t);
      assert |s| > 0 && Contains(s[1..], t);
      ReplaceAtMiss(s, t, r);
      ReplaceInserts(s[1..], t, r);
      var i: nat :| OccursAt(Replace(s[1..], t, r), r, i);
      OccursAfterPrefix([s[0]], Replace(s[1..], t, r), r, i);
    }
  }

  /** `replace` keeps the text before the first occurrence of a non-empty
      target, puts the replacement in place of that occurrence, and goes on
      replacing in the rest. With `ReplaceAbsent` this pins down `replace`
      for every non-empty target: each occurrence found from the left is
      replaced, not only the first. */
  lemma ReplaceAtFirst(s: string, t: string, r: string, i: nat)
    requires |t| > 0 && OccursAt(s, t, i)
    requires forall j: nat :: j < i ==> !OccursAt(s, t, j)
    ensures Replace(s, t, r) == s[..i] + r + Replace(s[i + |t|..], t, r)
  {
    assert Contains(s, t);
    var j := IndexOf(s, t).value;
    assert !(j < i) && !(i < j);
    ReplaceAtIndexOf(s, t, r, i);
  }

  /** `replace` splits at `i`: the text before `i`, the replacement, and the
      rest after a target's length replaced in turn. */
  predicate ReplacedAt(s: string, t: string, r: string, i: nat)
    requires i + |t| <= |s|
  {
    Replace(s, t, r) == s[..i] + r + Replace(s[i + |t|..], t, r)
  }

  /** `ReplaceAtFirst` for the occurrence `indexOf` finds, by induction on
      the search. */
  lemma {:induction false} ReplaceAtIndexOf(s: string, t: string, r: string, i: nat)
    requires |t| > 0 && IndexOf(s, t) == Some(i)
    ensures i + |t| <= |s| && ReplacedAt(s, t, r, i)
    decreases |s|
  {
    if t <= s {
      IndexOfAtStart(s, t, i);
      ReplaceAtMatch(s, t, r);
      assert s[..0] + r == r;
    } else {
      IndexOfStep(s, t, i);
      ReplaceAtIndexOf(s[1..], t, r, i - 1);
      ReplaceAfterMiss(s, t, r, i);
    }
  }

  /** A string that starts with the target has it at index 0. */
  lemma IndexOfAtStart(s: string, t: string, i: nat)
    requires IndexOf(s, t) == Some(i) && t <= s
    ensures i == 0 && |t| <= |s|
  {
  }

  /** Past a string that does not start with the target, `indexOf` goes on
      in the tail, one index further on. */
  lemma IndexOfStep(s: string, t: string, i: nat)
    requires IndexOf(s, t) == Some(i) && !(t <= s)
    ensures |s| > 0 && 0 < i && IndexOf(s[1..], t) == Some(i - 1)
  {
  }

  /** One step of `ReplaceAtIndexOf`: a string that does not start with
      the target is replaced as its tail is, behind its first character. */
  lemma ReplaceAfterMiss(s: string, t: string, r: string, i: nat)
    requires |t| > 0 && 0 < i && i + |t| <= |s| && !(t <= s)
    requires ReplacedAt(s[1..], t, r, i - 1)
    ensures ReplacedAt(s, t, r, i)
  {
    var tail := s[1..];
    var suffix := tail[i - 1 + |t|..];
    ReplaceAtMiss(s, t, r);
    ConsBeforeReplacement(s, tail, i, r, Replace(s, t, r), Replace(tail, t, r), Replace(suffix, t, r));
    assert suffix == s[i + |t|..];
  }

  /** The first character before a prefix of the rest is the longer prefix,
      whatever follows it. */
  lemma ConsBeforeReplacement(s: string, tail: string, i: nat, r: string, whole: string, replaced: string, rest: string)
    requires 0 < i <= |s| && tail == s[1..]
    requires whole == [s[0]] + replaced && replaced == tail[..i - 1] + r + rest
    ensures whole == s[..i] + r + rest
  {
    PrefixOfTail(s, i);
  }

  /** With no occurrence at 0 and none in the tail before `k`, there is
      none in `s` before `k + 1`. */
  lemma NoneEarlierFromTail(s: string, t: string, k: nat)
    requires |s| > 0 && !OccursAt(s, t, 0)
    requires forall j: nat :: j < k ==> !OccursAt(s[1..], t, j)
    ensures forall j: nat :: j < k + 1 ==> !OccursAt(s, t, j)
  {
    OccursShift(s, t);
    forall j: nat | 0 < j < k + 1
      ensures !OccursAt(s, t, j)
    {
      assert !OccursAt(s[1..], t, j - 1);
    }
  }

  /** A replacement at least as long as the non-empty target never shortens
      the string. */
  lemma {:induction false} ReplaceNoShorter(s: string, t: string, r: string)
    requires 0 < |t| <= |r|
    ensures |Replace(s, t, r)| >= |s|
    decreases |s|
  {
    if |s| > 0 {
      if t <= s {
        ReplaceAtMatch(s, t, r);
        ReplaceNoShorter(s[|t|..], t, r);
      } else {
        ReplaceAtMiss(s, t, r);
        ReplaceNoShorter(s[1..], t, r);
      }
    }
  }

  /** A longer replacement for a target that occurs makes the string longer,
      by at least the difference for the first occurrence. */
  lemma ReplaceGrows(s: string, t: string, r: string)
    requires 0 < |t| < |r| && Contains(s, t)
    ensures |Replace(s, t, r)| >= |s| + |r| - |t|
  {
    var i := IndexOf(s, t).value;
    ReplaceAtFirst(s, t, r, i);
    ReplaceNoShorter(s[i + |t|..], t, r);
  }

  /** Two occurrences of the target, the second starting after the first
      ends, make a longer replacement grow the string twice over. */
  lemma ReplaceGrowsTwice(s: string, t: string, r: string, i: nat, e: nat)
    requires 0 < |t| < |r|
    requires OccursAt(s, t, i) && OccursAt(s, t, e) && i + |t| <= e
    ensures |Replace(s, t, r)| >= |s| + 2 * (|r| - |t|)
  {
    var j := IndexOf(s, t).value;
    assert j <= i;
    ReplaceAtFirst(s, t, r, j);
    OccursInSuffix(s, t, e, j + |t|);
    ReplaceGrows(s[j + |t|..], t, r);
  }

  /** An occurrence keeps its place, shifted, in a suffix that starts at or
      before it. */
  lemma OccursInSuffix(s: string, t: string, i: nat, m: nat)
    requires OccursAt(s, t, i) && m <= i
    ensures OccursAt(s[m..], t, i - m)
  {
    assert s[m..][i - m..i - m + |t|] == s[i..i + |t|];
  }
}
