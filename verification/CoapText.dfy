/** Strings sent as several options (apps/er-coap-12): how paths and queries are cut into options and joined again. */
module CoapText {
  // One option per segment, as coap_serialize_array_option cuts them and coap_merge_multi_option joins them.

  type Byte = x: nat | x < 256

  const SLASH: Byte := 47
  const AMPERSAND: Byte := 38

  /** The first separator at or after j, or the end of the string. */
  function NextCut(s: seq<Byte>, c: Byte, j: nat): (k: nat)
    requires j <= |s|
    ensures j <= k <= |s| && (k < |s| ==> s[k] == c) && forall i | j <= i < k :: s[i] != c
    decreases |s| - j
  {
    if j == |s| || s[j] == c then j else NextCut(s, c, j + 1)
  }

  /** Slashes are skipped in front of a segment, whatever the separator is. */
  function Strip(s: seq<Byte>): (r: seq<Byte>)
    ensures |r| <= |s| && (|r| == |s| ==> r == s)
    ensures |r| == |s| <==> s == [] || s[0] != SLASH
    ensures r != [] ==> r[0] != SLASH
  {
    if s != [] && s[0] == SLASH then Strip(s[1..]) else s
  }

  /** The segments after a separator.  The first character is never taken for a separator. */
  function Later(s: seq<Byte>, c: Byte): (parts: seq<seq<Byte>>)
    decreases |s|
  {
    if s == [] then []
    else
      var k := NextCut(s, c, 1);
      [s[..k]] + if k < |s| then Later(Strip(s[k + 1..]), c) else []
  }

  /** All segments of a string. */
  function Split(s: seq<Byte>, c: Byte): seq<seq<Byte>> {
    var k := NextCut(s, c, 0);
    [s[..k]] + if k < |s| then Later(Strip(s[k + 1..]), c) else []
  }

  /** One more option joined to what has been received so far. */
  function Merge(text: seq<Byte>, part: seq<Byte>, c: Byte): (r: seq<Byte>)
    ensures |r| == if text == [] then |part| else |text| + 1 + |part|
  {
    if text == [] then part else text + [c] + part
  }

  function MergeAll(text: seq<Byte>, parts: seq<seq<Byte>>, c: Byte): seq<Byte>
    decreases |parts|
  {
    if parts == [] then text else MergeAll(Merge(text, parts[0], c), parts[1..], c)
  }

  /** A segment follows the separator in front, no slash is skipped, and so on for its separators. */
  predicate TidyAfter(s: seq<Byte>, c: Byte)
    decreases |s|
  {
    && s != [] && s[0] != SLASH
    && var k := NextCut(s, c, 1); k < |s| ==> TidyAfter(s[k + 1..], c)
  }

  /** No separator in front, and a segment that does not begin with a slash after every separator where
    * the string is cut. */
  predicate Tidy(s: seq<Byte>, c: Byte) {
    && (s != [] ==> s[0] != c)
    && var k := NextCut(s, c, 0); k < |s| ==> TidyAfter(s[k + 1..], c)
  }

  lemma MergeOne(text: seq<Byte>, part: seq<Byte>, rest: seq<seq<Byte>>, c: Byte)
    ensures MergeAll(text, [part] + rest, c) == MergeAll(Merge(text, part, c), rest, c)
  {
    assert ([part] + rest)[1..] == rest;
  }

  /** The result is the whole text exactly when `complete`, and shorter otherwise. */
  predicate Restores(r: seq<Byte>, whole: seq<Byte>, complete: bool) {
    if complete then r == whole else |r| < |whole|
  }

  lemma Shorter(r: seq<Byte>, front: seq<Byte>, s: seq<Byte>, k: nat, rest: seq<Byte>, c: Byte, complete: bool)
    requires k < |s| && s[k] == c && |rest| <= |s| - k - 1
    requires Restores(r, (front + s[..k]) + [c] + rest, complete)
    requires complete ==> rest == s[k + 1..]
    ensures Restores(r, front + s, complete)
  {
    if complete {
      assert s == s[..k] + [c] + s[k + 1..];
      assert (front + s[..k]) + [c] + s[k + 1..] == front + s;
    }
  }

  /** Stripping slashes leaves less than there was. */
  lemma StripShortens(r: seq<Byte>, front: seq<Byte>, s: seq<Byte>, complete: bool)
    requires s != [] && Strip(s) != s ==> |r| <= |front| + |Strip(s)|
    requires Strip(s) == s ==> Restores(r, front + s, complete)
    requires Strip(s) != s ==> !complete
    ensures Restores(r, front + s, complete)
  {
  }

  lemma RestoresAtMost(r: seq<Byte>, whole: seq<Byte>, complete: bool)
    requires Restores(r, whole, complete)
    ensures |r| <= |whole|
  {
  }

  /** Joining the segments after a separator to a non-empty text gives back everything exactly when they
    * are tidy; otherwise something is missing. */
  lemma {:induction false} LaterMerge(text: seq<Byte>, s: seq<Byte>, c: Byte)
    requires text != [] && s != []
    ensures Restores(MergeAll(text, Later(Strip(s), c), c), (text + [c]) + s, TidyAfter(s, c))
    decreases |s|
  {
    var u := Strip(s);
    if u == [] {
      assert Later(u, c) == [];
    } else {
      var k := NextCut(u, c, 1);
      assert Merge(text, u[..k], c) == (text + [c]) + u[..k];
      LaterStep(text, text + [c], u, c, k);
      hide MergeAll, Merge, Restores, NextCut, Later;
      RestoresAtMost(MergeAll(text, Later(u, c), c), (text + [c]) + u, TidyAfter(u, c));
      StripShortens(MergeAll(text, Later(u, c), c), text + [c], s, TidyAfter(s, c));
    }
  }

  lemma LaterStep(text: seq<Byte>, front: seq<Byte>, u: seq<Byte>, c: Byte, k: nat)
    requires u != [] && u[0] != SLASH && k == NextCut(u, c, 1) && Merge(text, u[..k], c) == front + u[..k]
    ensures Restores(MergeAll(text, Later(u, c), c), front + u, TidyAfter(u, c))
    decreases |u|, 0
  {
    var next := front + u[..k];
    if k < |u| {
      var v := u[k + 1..];
      MergeOne(text, u[..k], Later(Strip(v), c), c);
      if v != [] {
        LaterMerge(next, v, c);
      } else {
        assert MergeAll(next, Later(Strip(v), c), c) == next;
        assert !TidyAfter(v, c);
      }
      hide MergeAll, Merge, Restores, NextCut, Later;
      Shorter(MergeAll(next, Later(Strip(v), c), c), front, u, k, v, c, TidyAfter(u, c));
    } else {
      assert u[..k] == u;
      MergeOne(text, u, [], c);
    }
  }

  /** Splitting a string and merging the options again gives the string back if and only if it is tidy. */
  lemma SplitMerge(s: seq<Byte>, c: Byte)
    ensures MergeAll([], Split(s, c), c) == s <==> Tidy(s, c)
  {
    var k := NextCut(s, c, 0);
    MergeOne([], s[..k], if k < |s| then Later(Strip(s[k + 1..]), c) else [], c);
    if k == |s| {
      assert s[..k] == s;
    } else if k == 0 {
      FirstEmpty(s, c);
    } else {
      FirstSegment(s, c, k);
    }
  }

  lemma FirstSegment(s: seq<Byte>, c: Byte, k: nat)
    requires 0 < k < |s| && k == NextCut(s, c, 0)
    ensures Restores(MergeAll(s[..k], Later(Strip(s[k + 1..]), c), c), s, TidyAfter(s[k + 1..], c))
  {
    var v := s[k + 1..];
    if v != [] {
      LaterMerge(s[..k], v, c);
    } else {
      assert MergeAll(s[..k], Later(Strip(v), c), c) == s[..k];
    }
    hide MergeAll, NextCut, Later;
    assert (s[..k] + [c]) + v == s;
  }

  /** After an empty first segment, the separator in front of the next one is not restored. */
  lemma FirstEmpty(s: seq<Byte>, c: Byte)
    requires s != []
    ensures |MergeAll([], Later(Strip(s[1..]), c), c)| < |s|
  {
    var u := Strip(s[1..]);
    if u != [] {
      var k := NextCut(u, c, 1);
      LaterStep([], [], u, c, k);
      RestoresAtMost(MergeAll([], Later(u, c), c), [] + u, TidyAfter(u, c));
    }
  }

  // ---------------------------------------------------------------- the scan for separators

  /** The parts still to be written when the scan for separators is at j. */
  function Remaining(s: seq<Byte>, c: Byte, start: nat, j: nat): seq<seq<Byte>>
    requires start <= j
  {
    if j > |s| then []
    else
      var k := NextCut(s, c, j);
      [s[start..k]] + if k < |s| then Later(Strip(s[k + 1..]), c) else []
  }

  lemma AtStart(s: seq<Byte>, c: Byte)
    ensures Remaining(s, c, 0, 0) == Split(s, c)
  {
  }

  lemma NoCutHere(s: seq<Byte>, c: Byte, start: nat, j: nat)
    requires start <= j < |s| && s[j] != c
    ensures Remaining(s, c, start, j + 1) == Remaining(s, c, start, j)
  {
    assert NextCut(s, c, j) == NextCut(s, c, j + 1);
    hide NextCut, Later, Strip;
  }

  lemma {:induction false} CutInSuffix(s: seq<Byte>, c: Byte, m: nat, j: nat)
    requires m <= |s| && j <= |s| - m
    ensures NextCut(s[m..], c, j) == NextCut(s, c, m + j) - m
    decreases |s| - m - j
  {
    if j < |s| - m {
      assert s[m..][j] == s[m + j];
      if s[m + j] != c {
        CutInSuffix(s, c, m, j + 1);
      }
    }
  }

  lemma SliceOfSuffix(s: seq<Byte>, m: nat, k: nat)
    requires m <= k <= |s|
    ensures s[m..][..k - m] == s[m..k]
    ensures k < |s| ==> s[m..][k - m + 1..] == s[k + 1..]
  {
  }

  lemma LaterUnfold(u: seq<Byte>, c: Byte, k: nat)
    requires u != [] && k == NextCut(u, c, 1)
    ensures Later(u, c) == [u[..k]] + if k < |u| then Later(Strip(u[k + 1..]), c) else []
  {
  }

  /** The scan over a later segment starts behind its first character. */
  lemma LaterRemains(s: seq<Byte>, c: Byte, m: nat)
    requires m < |s|
    ensures Remaining(s, c, m, m + 1) == Later(s[m..], c)
  {
    hide Later, NextCut, Strip;
    var k := NextCut(s, c, m + 1);
    CutInSuffix(s, c, m, 1);
    SliceOfSuffix(s, m, k);
    LaterUnfold(s[m..], c, k - m);
  }

  /** After a cut, the next part begins behind the slashes that follow. */
  lemma CutHere(s: seq<Byte>, c: Byte, start: nat, j: nat, m: nat)
    requires start <= j < |s| && s[j] == c && m <= |s| && s[m..] == Strip(s[j + 1..])
    ensures Remaining(s, c, start, j) == [s[start..j]] + Remaining(s, c, m, m + 1)
  {
    assert NextCut(s, c, j) == j;
    assert Remaining(s, c, start, j) == [s[start..j]] + Later(Strip(s[j + 1..]), c);
    if m < |s| {
      LaterRemains(s, c, m);
    } else {
      assert Later(s[m..], c) == [];
    }
  }

  lemma LastPart(s: seq<Byte>, c: Byte, start: nat)
    requires start <= |s|
    ensures Remaining(s, c, start, |s|) == [s[start..]]
  {
    assert s[start..|s|] == s[start..];
  }

  /** Moves past the slashes in front of a segment. */
  method SkipSlashes(s: seq<Byte>, from: nat) returns (m: nat)
    requires from <= |s|
    ensures from <= m <= |s| && s[m..] == Strip(s[from..])
  {
    m := from;
    while m < |s| && s[m] == SLASH
      invariant from <= m <= |s| && Strip(s[m..]) == Strip(s[from..])
    {
      assert s[m..][1..] == s[m + 1..];
      m := m + 1;
    }
  }

  // ---------------------------------------------------------------- paths

  /** No empty segment: no slash at either end, and no two in a row. */
  predicate NoEmptySegment(s: seq<Byte>, c: Byte) {
    s == [] || (s[0] != c && s[|s| - 1] != c && forall i | 0 <= i < |s| - 1 :: !(s[i] == c && s[i + 1] == c))
  }

  /** No slash at the end, and none after another. */
  predicate Apart(s: seq<Byte>, c: Byte) {
    forall i | 0 <= i < |s| && s[i] == c :: i + 1 < |s| && s[i + 1] != SLASH
  }

  lemma {:induction false} TidyPathAfter(s: seq<Byte>)
    requires s != [] && s[0] != SLASH
    ensures TidyAfter(s, SLASH) <==> Apart(s, SLASH)
    decreases |s|
  {
    var k := NextCut(s, SLASH, 1);
    if k < |s| {
      CutPath(s, k);
    }
  }

  lemma CutPath(s: seq<Byte>, k: nat)
    requires k < |s| && s[k] == SLASH && forall i | 0 <= i < k :: s[i] != SLASH
    ensures Apart(s, SLASH) <==> TidyAfter(s[k + 1..], SLASH)
    decreases |s|, 0
  {
    var v := s[k + 1..];
    if v != [] && v[0] != SLASH {
      TidyPathAfter(v);
      if Apart(s, SLASH) {
        assert forall i | 0 <= i < |v| :: v[i] == s[k + 1 + i];
      }
      if Apart(v, SLASH) {
        forall i | 0 <= i < |s| && s[i] == SLASH
          ensures i + 1 < |s| && s[i + 1] != SLASH
        {
          if i > k {
            assert v[i - k - 1] == SLASH;
          } else {
            assert s[k + 1] == v[0];
          }
        }
      }
    } else {
      assert v != [] ==> s[k + 1] == v[0];
    }
  }

  /** A path survives splitting and merging if and only if it has no empty segment. */
  lemma PathSurvives(s: seq<Byte>)
    ensures MergeAll([], Split(s, SLASH), SLASH) == s <==> NoEmptySegment(s, SLASH)
  {
    SplitMerge(s, SLASH);
    if s != [] && s[0] != SLASH {
      var k := NextCut(s, SLASH, 0);
      if k < |s| {
        CutPath(s, k);
      }
      assert Apart(s, SLASH) ==> s[|s| - 1] != SLASH;
    }
  }

  lemma {:induction false} TidyQueryAfter(s: seq<Byte>, c: Byte)
    requires s != [] && s[0] != SLASH && Apart(s, c)
    ensures TidyAfter(s, c)
    decreases |s|
  {
    var k := NextCut(s, c, 1);
    if k < |s| {
      assert s[k + 1..][0] == s[k + 1];
      TidyQueryAfter(s[k + 1..], c);
    }
  }

  /** A query without empty segments, and without a slash at the start of a later segment, survives. */
  lemma QuerySurvives(s: seq<Byte>)
    requires NoEmptySegment(s, AMPERSAND)
    requires forall i | 0 <= i < |s| - 1 && s[i] == AMPERSAND :: s[i + 1] != SLASH
    ensures MergeAll([], Split(s, AMPERSAND), AMPERSAND) == s
  {
    hide MergeAll, Split;
    SplitMerge(s, AMPERSAND);
    var k := NextCut(s, AMPERSAND, 0);
    if k < |s| {
      assert s[k + 1..][0] == s[k + 1];
      TidyQueryAfter(s[k + 1..], AMPERSAND);
    }
  }

  /** In a query, a slash after the separator is lost. */
  lemma SlashInQueryIsLost()
    ensures MergeAll([], Split([97, AMPERSAND, SLASH, 98], AMPERSAND), AMPERSAND) != [97, AMPERSAND, SLASH, 98]
  {
    var s: seq<Byte> := [97, AMPERSAND, SLASH, 98];
    SplitMerge(s, AMPERSAND);
    assert NextCut(s, AMPERSAND, 0) == NextCut(s, AMPERSAND, 1) == 1;
    assert s[2..][0] == SLASH;
  }
}
