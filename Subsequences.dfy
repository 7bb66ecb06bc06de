/**
  * Order-preserving selection from a sequence, stated by positions: the
  * exact meaning of a LINQ `Where` or of a `foreach` that appends only some
  * of the elements it visits.
  */
module Subsequences {
  /** `r` lists the elements of `s` found at the strictly increasing positions `idx`. */
  ghost predicate Enumerates<T>(r: seq<T>, s: seq<T>, idx: seq<nat>)
  {
    && |idx| == |r|
    && (forall j :: 0 <= j < |idx| ==> idx[j] < |s| && r[j] == s[idx[j]])
    && (forall i, j :: 0 <= i < j < |idx| ==> idx[i] < idx[j])
  }

  /** `r` is `s` with exactly the elements at the positions `keep` marks, in their order and multiplicity. */
  ghost predicate SelectedBy<T>(r: seq<T>, s: seq<T>, keep: seq<bool>)
  {
    |keep| == |s| &&
    exists idx: seq<nat> :: (Enumerates(r, s, idx) && forall k :: 0 <= k < |s| ==> (k in idx <==> keep[k]))
  }

  /** Nothing visited, nothing selected. */
  lemma SelectedByNil<T>()
    ensures SelectedBy<T>([], [], [])
  {
    assert Enumerates<T>([], [], []);
  }

  /** Visiting one more element `x` either appends it to the selection (`b`) or skips it. */
  lemma SelectedBySnoc<T>(r: seq<T>, s: seq<T>, keep: seq<bool>, x: T, b: bool)
    requires SelectedBy(r, s, keep)
    ensures SelectedBy(if b then r + [x] else r, s + [x], keep + [b])
  {
    var idx: seq<nat> :| Enumerates(r, s, idx) && forall k :: 0 <= k < |s| ==> (k in idx <==> keep[k]);
    if b {
      var idx' := idx + [|s|];
      EnumeratesKeep(r, s, idx, x);
      forall k | 0 <= k < |s| + 1
        ensures k in idx' <==> (keep + [b])[k]
      {
        if k < |s| {
          assert (keep + [b])[k] == keep[k];
          assert k in idx' <==> k in idx;
        }
      }
      assert Enumerates(r + [x], s + [x], idx');
    } else {
      EnumeratesSkip(r, s, idx, x);
      forall k | 0 <= k < |s| + 1
        ensures k in idx <==> (keep + [b])[k]
      {
        if k < |s| {
          assert (keep + [b])[k] == keep[k];
        } else {
          assert |s| !in idx;
        }
      }
    }
  }

  lemma EnumeratesKeep<T>(r: seq<T>, s: seq<T>, idx: seq<nat>, x: T)
    requires Enumerates(r, s, idx)
    ensures Enumerates(r + [x], s + [x], idx + [|s|])
  {
    assert forall j :: 0 <= j < |idx| ==> (r + [x])[j] == r[j] && (s + [x])[idx[j]] == s[idx[j]];
  }

  lemma EnumeratesSkip<T>(r: seq<T>, s: seq<T>, idx: seq<nat>, x: T)
    requires Enumerates(r, s, idx)
    ensures Enumerates(r, s + [x], idx)
    ensures |s| !in idx
  {
    assert forall j :: 0 <= j < |idx| ==> (s + [x])[idx[j]] == s[idx[j]];
  }

  /** Concatenation regroups freely; used where a loop appends a block to an accumulated list. */
  lemma AppendAssociative<E>(a: seq<E>, b: seq<E>, c: seq<E>)
    ensures a + (b + c) == (a + b) + c
  {
  }
}
