/**
 * The list of selected ids in the Git view, and what the tree's checkbox
 * handler does to it: clearing a node's leaves, adding them, dropping
 * every ".xlsx" id, and counting how many leaves are already selected.
 */
module Selection {
  import opened Strings

  /** The ids of `s` that are not among `ids`, in their order. */
  function Without(s: seq<string>, ids: seq<string>): seq<string>
  {
    if s == [] then [] else (if s[0] in ids then [] else [s[0]]) + Without(s[1..], ids)
  }

  /** `ids`, one at a time, pushed onto `s` unless already there. */
  function Added(s: seq<string>, ids: seq<string>): seq<string>
  {
    if ids == [] then s
    else
      var a := Added(s, ids[..|ids| - 1]);
      var x := ids[|ids| - 1];
      if x in a then a else a + [x]
  }

  predicate IsXlsx(id: string)
  {
    EndsWith(id, ".xlsx")
  }

  /** `filter(id => !id.endsWith('.xlsx'))`. */
  function NoXlsx(s: seq<string>): seq<string>
  {
    if s == [] then [] else (if IsXlsx(s[0]) then [] else [s[0]]) + NoXlsx(s[1..])
  }

  /** No selected id ends in ".xlsx". */
  predicate XlsxFree(s: seq<string>)
  {
    forall i | 0 <= i < |s| :: !IsXlsx(s[i])
  }

  /** `leaves.filter(id => selected.includes(id)).length`. */
  function CountIn(ids: seq<string>, selected: seq<string>): nat
  {
    if ids == [] then 0 else (if ids[0] in selected then 1 else 0) + CountIn(ids[1..], selected)
  }

  /**
   * The checkbox handler's effect on the selection, given the ids of the
   * node's leaves: all of them already selected clears them, anything less
   * adds them and then drops every ".xlsx" id.
   */
  function Toggled(s: seq<string>, leaves: seq<string>): (r: seq<string>)
    ensures NoDup(s) && XlsxFree(s) ==> NoDup(r) && XlsxFree(r)
    ensures NoDup(s) && XlsxFree(s) ==> forall x :: x in r <==>
      if CountIn(leaves, s) == |leaves| then x in s && x !in leaves else (x in s || x in leaves) && !IsXlsx(x)
  {
    if CountIn(leaves, s) == |leaves| then
      (if NoDup(s) && XlsxFree(s) then ClearLeaves(s, leaves); Without(s, leaves) else Without(s, leaves))
    else
      (if NoDup(s) then AddLeaves(s, leaves); NoXlsx(Added(s, leaves)) else NoXlsx(Added(s, leaves)))
  }

  // ---------------------------------------------------------------- Without

  /** Exactly the ids of `s` outside `ids` remain. */
  lemma {:induction false} WithoutMembers(s: seq<string>, ids: seq<string>, x: string)
    ensures x in Without(s, ids) <==> x in s && x !in ids
  {
    if s != [] {
      WithoutMembers(s[1..], ids, x);
      assert s == [s[0]] + s[1..];
    }
  }

  lemma {:induction false} WithoutNoDup(s: seq<string>, ids: seq<string>)
    requires NoDup(s)
    ensures NoDup(Without(s, ids))
  {
    if s != [] {
      var rest := s[1..];
      assert NoDup(rest) by {
        forall i, j | 0 <= i < j < |rest| ensures rest[i] != rest[j] {
          assert rest[i] == s[i + 1] && rest[j] == s[j + 1];
        }
      }
      WithoutNoDup(rest, ids);
      assert s[0] !in rest by {
        forall j | 0 <= j < |rest| ensures rest[j] != s[0] {
          assert rest[j] == s[j + 1];
        }
      }
      WithoutMembers(rest, ids, s[0]);
      var head: seq<string> := if s[0] in ids then [] else [s[0]];
      NoDupConcat(head, Without(rest, ids));
    }
  }

  /** `Without` on a list with a known first id. */
  lemma WithoutCons(h: string, w: seq<string>, ids: seq<string>)
    ensures Without([h] + w, ids) == (if h in ids then [] else [h]) + Without(w, ids)
  {
    assert ([h] + w)[0] == h && ([h] + w)[1..] == w;
  }

  /** Removing one more id after a batch is removing the longer batch. */
  lemma {:induction false} WithoutSnoc(s: seq<string>, ids: seq<string>, x: string)
    ensures Without(Without(s, ids), [x]) == Without(s, ids + [x])
  {
    if s != [] {
      var h, t := s[0], s[1..];
      assert s == [h] + t;
      WithoutSnoc(t, ids, x);
      WithoutCons(h, t, ids);
      WithoutCons(h, t, ids + [x]);
      assert h in ids + [x] <==> h in ids || h == x;
      if h in ids {
        assert Without(s, ids) == Without(t, ids);
      } else {
        WithoutCons(h, Without(t, ids), [x]);
      }
    }
  }

  /** When none of `s` is in `ids`, nothing goes. */
  lemma {:induction false} WithoutNone(s: seq<string>, ids: seq<string>)
    requires forall i | 0 <= i < |s| :: s[i] !in ids
    ensures Without(s, ids) == s
  {
    if s != [] {
      WithoutNone(s[1..], ids);
      assert s == [s[0]] + s[1..];
    }
  }

  lemma {:induction false} WithoutConcat(a: seq<string>, b: seq<string>, ids: seq<string>)
    ensures Without(a + b, ids) == Without(a, ids) + Without(b, ids)
  {
    if a != [] {
      WithoutConcat(a[1..], b, ids);
      assert (a + b)[1..] == a[1..] + b;
    } else {
      assert a + b == b;
    }
  }

  /**
   * `idx >= 0 && selected.splice(idx, 1)` with `idx = selected.indexOf(x)`:
   * on a list without duplicates it removes every occurrence of `x`.
   */
  lemma SpliceIsWithout(s: seq<string>, x: string)
    requires NoDup(s)
    ensures var i := Find(s, x); (if i >= 0 then s[..i] + s[i + 1..] else s) == Without(s, [x])
  {
    var i := Find(s, x);
    if i >= 0 {
      var before, after := s[..i], s[i + 1..];
      Pieces(s, i, i + 1);
      assert s[i..i + 1] == [x];
      forall j | 0 <= j < |after| ensures after[j] != x {
        assert after[j] == s[i + 1 + j];
      }
      WithoutOne(before, after, x);
    } else {
      WithoutNone(s, [x]);
    }
  }

  /** Dropping the one occurrence of `x` from `a + [x] + b`. */
  lemma WithoutOne(a: seq<string>, b: seq<string>, x: string)
    requires x !in a && x !in b
    ensures Without(a + [x] + b, [x]) == a + b
  {
    var ax := a + [x];
    WithoutConcat(ax, b, [x]);
    WithoutConcat(a, [x], [x]);
    forall i | 0 <= i < |a| ensures a[i] !in [x] {
      assert a[i] in a;
    }
    WithoutNone(a, [x]);
    forall i | 0 <= i < |b| ensures b[i] !in [x] {
      assert b[i] in b;
    }
    WithoutNone(b, [x]);
    WithoutCons(x, [], [x]);
    assert Without([], [x]) == [];
    var none: seq<string> := [];
    assert [x] + none == [x];
    assert Without(ax, [x]) == a + none;
    assert a + none == a;
  }

  /** One round of `unselect`'s loop: splicing out the next id removes one more id of the batch. */
  lemma SpliceStep(before: seq<string>, ids: seq<string>, i: nat, s: seq<string>, j: int, s': seq<string>)
    requires i < |ids| && s == Without(before, ids[..i]) && NoDup(s)
    requires j == Find(s, ids[i]) && s' == if j >= 0 then s[..j] + s[j + 1..] else s
    ensures s' == Without(before, ids[..i + 1]) && NoDup(s')
  {
    var x := ids[i];
    SpliceIsWithout(s, x);
    assert s' == Without(s, [x]);
    WithoutNoDup(s, [x]);
    WithoutSnoc(before, ids[..i], x);
    PrefixStep(ids, i);
  }

  // ---------------------------------------------------------------- Added

  /** After the pushes, exactly the old ids and the new ones are there. */
  lemma {:induction false} AddedMembers(s: seq<string>, ids: seq<string>, x: string)
    ensures x in Added(s, ids) <==> x in s || x in ids
  {
    if ids != [] {
      var front := ids[..|ids| - 1];
      AddedMembers(s, front, x);
      assert ids == front + [ids[|ids| - 1]];
    }
  }

  /** Pushing only absent ids adds no duplicate. */
  lemma {:induction false} AddedNoDup(s: seq<string>, ids: seq<string>)
    requires NoDup(s)
    ensures NoDup(Added(s, ids))
  {
    if ids != [] {
      AddedNoDup(s, ids[..|ids| - 1]);
      var a := Added(s, ids[..|ids| - 1]);
      var x := ids[|ids| - 1];
      if x !in a {
        NoDupConcat(a, [x]);
      }
    }
  }

  /** The pushes only append: the ids that were selected keep their places. */
  lemma {:induction false} AddedExtends(s: seq<string>, ids: seq<string>)
    ensures |s| <= |Added(s, ids)| && Added(s, ids)[..|s|] == s
  {
    if ids != [] {
      AddedExtends(s, ids[..|ids| - 1]);
      var a := Added(s, ids[..|ids| - 1]);
      assert (a + [ids[|ids| - 1]])[..|s|] == a[..|s|];
    }
  }

  // ---------------------------------------------------------------- NoXlsx

  lemma {:induction false} NoXlsxMembers(s: seq<string>, x: string)
    ensures x in NoXlsx(s) <==> x in s && !IsXlsx(x)
  {
    if s != [] {
      NoXlsxMembers(s[1..], x);
      assert s == [s[0]] + s[1..];
    }
  }

  lemma {:induction false} NoXlsxClean(s: seq<string>)
    ensures XlsxFree(NoXlsx(s))
  {
    var r := NoXlsx(s);
    forall i | 0 <= i < |r| ensures !IsXlsx(r[i]) {
      assert r[i] in r;
      NoXlsxMembers(s, r[i]);
    }
  }

  lemma {:induction false} NoXlsxNoDup(s: seq<string>)
    requires NoDup(s)
    ensures NoDup(NoXlsx(s))
  {
    if s != [] {
      var rest := s[1..];
      assert NoDup(rest) by {
        forall i, j | 0 <= i < j < |rest| ensures rest[i] != rest[j] {
          assert rest[i] == s[i + 1] && rest[j] == s[j + 1];
        }
      }
      NoXlsxNoDup(rest);
      assert s[0] !in rest by {
        forall j | 0 <= j < |rest| ensures rest[j] != s[0] {
          assert rest[j] == s[j + 1];
        }
      }
      NoXlsxMembers(rest, s[0]);
      var head: seq<string> := if IsXlsx(s[0]) then [] else [s[0]];
      NoDupConcat(head, NoXlsx(rest));
    }
  }

  // ---------------------------------------------------------------- counting

  lemma {:induction false} CountAtMost(ids: seq<string>, selected: seq<string>)
    ensures CountIn(ids, selected) <= |ids|
  {
    if ids != [] {
      CountAtMost(ids[1..], selected);
    }
  }

  /** The count reaches the number of leaves exactly when every leaf is selected. */
  lemma {:induction false} CountAll(ids: seq<string>, selected: seq<string>)
    ensures CountIn(ids, selected) == |ids| <==> forall i | 0 <= i < |ids| :: ids[i] in selected
  {
    if ids != [] {
      CountAll(ids[1..], selected);
      CountAtMost(ids[1..], selected);
      assert forall i | 1 <= i < |ids| :: ids[i] == ids[1..][i - 1];
    }
  }

  /**
   * A selection without ".xlsx" ids never covers a list of leaves that
   * has an ".xlsx" id, so such a subtree never counts as fully selected.
   */
  lemma XlsxNeverFull(ids: seq<string>, selected: seq<string>, j: nat)
    requires XlsxFree(selected) && j < |ids| && IsXlsx(ids[j])
    ensures CountIn(ids, selected) < |ids|
  {
    CountAll(ids, selected);
    CountAtMost(ids, selected);
    assert ids[j] !in selected by {
      forall k | 0 <= k < |selected| ensures selected[k] != ids[j] {
        assert !IsXlsx(selected[k]);
      }
    }
  }

  // ---------------------------------------------------------------- the two outcomes of a toggle

  /** Clearing: the leaves are gone and every other id stays, in its order, without duplicates. */
  lemma ClearLeaves(s: seq<string>, leaves: seq<string>)
    requires NoDup(s) && XlsxFree(s)
    ensures forall x :: x in Without(s, leaves) <==> x in s && x !in leaves
    ensures NoDup(Without(s, leaves)) && XlsxFree(Without(s, leaves))
  {
    forall x ensures x in Without(s, leaves) <==> x in s && x !in leaves {
      WithoutMembers(s, leaves, x);
    }
    WithoutNoDup(s, leaves);
    var r := Without(s, leaves);
    forall i | 0 <= i < |r| ensures !IsXlsx(r[i]) {
      assert r[i] in r;
      WithoutMembers(s, leaves, r[i]);
    }
  }

  /** Adding: every leaf and every selected id is there unless it ends in ".xlsx", without duplicates. */
  lemma AddLeaves(s: seq<string>, leaves: seq<string>)
    requires NoDup(s)
    ensures forall x :: x in NoXlsx(Added(s, leaves)) <==> (x in s || x in leaves) && !IsXlsx(x)
    ensures NoDup(NoXlsx(Added(s, leaves))) && XlsxFree(NoXlsx(Added(s, leaves)))
  {
    forall x ensures x in NoXlsx(Added(s, leaves)) <==> (x in s || x in leaves) && !IsXlsx(x) {
      NoXlsxMembers(Added(s, leaves), x);
      AddedMembers(s, leaves, x);
    }
    AddedNoDup(s, leaves);
    NoXlsxNoDup(Added(s, leaves));
    NoXlsxClean(Added(s, leaves));
  }

  // ---------------------------------------------------------------- toggling twice

  /**
   * From a fully selected subtree, two clicks give back the same selected
   * ids: the first clears the leaves, the second, finding none selected,
   * adds them again (at the end of the list).
   */
  lemma ToggleTwiceFromFull(s: seq<string>, leaves: seq<string>)
    requires NoDup(s) && XlsxFree(s) && |leaves| >= 1
    requires forall i | 0 <= i < |leaves| :: leaves[i] in s
    ensures Toggled(s, leaves) == Without(s, leaves)
    ensures forall x :: x in Toggled(Toggled(s, leaves), leaves) <==> x in s
  {
    CountAll(leaves, s);
    var s1 := Without(s, leaves);
    WithoutMembers(s, leaves, leaves[0]);
    CountAll(leaves, s1);
    CountAtMost(leaves, s1);
    assert Toggled(s1, leaves) == NoXlsx(Added(s1, leaves));
    WithoutNoDup(s, leaves);
    AddLeaves(s1, leaves);
    forall x ensures x in NoXlsx(Added(s1, leaves)) <==> x in s {
      WithoutMembers(s, leaves, x);
      if x in s {
        var i :| 0 <= i < |s| && s[i] == x;
      }
    }
  }

  /**
   * From a subtree with no leaf selected and no ".xlsx" leaf, two clicks
   * give back the same selected ids: the first selects every leaf, so the
   * second finds the subtree full and clears it.
   */
  lemma ToggleTwiceFromNone(s: seq<string>, leaves: seq<string>)
    requires NoDup(s) && XlsxFree(s) && XlsxFree(leaves) && |leaves| >= 1
    requires forall i | 0 <= i < |leaves| :: leaves[i] !in s
    ensures Toggled(s, leaves) == NoXlsx(Added(s, leaves))
    ensures forall x :: x in Toggled(Toggled(s, leaves), leaves) <==> x in s
  {
    CountAll(leaves, s);
    CountAtMost(leaves, s);
    assert leaves[0] !in s;
    var s1 := NoXlsx(Added(s, leaves));
    AddLeaves(s, leaves);
    forall i | 0 <= i < |leaves| ensures leaves[i] in s1 {
      assert leaves[i] in leaves;
    }
    CountAll(leaves, s1);
    forall x ensures x in Without(s1, leaves) <==> x in s {
      WithoutMembers(s1, leaves, x);
      if x in s {
        var i :| 0 <= i < |s| && s[i] == x;
      }
    }
  }

  /**
   * Two clicks restore the selection only in the two cases above. From a
   * partly selected subtree without ".xlsx" leaves, the first click selects
   * every leaf and the second clears them all, so a leaf that was selected
   * before ends up unselected.
   */
  lemma ToggleTwiceFromPartial(s: seq<string>, leaves: seq<string>, i: nat, j: nat)
    requires NoDup(s) && XlsxFree(s) && XlsxFree(leaves)
    requires i < |leaves| && j < |leaves| && leaves[i] in s && leaves[j] !in s
    ensures forall x :: x in Toggled(Toggled(s, leaves), leaves) <==> x in s && x !in leaves
    ensures leaves[i] in s && leaves[i] !in Toggled(Toggled(s, leaves), leaves)
  {
    CountAll(leaves, s);
    CountAtMost(leaves, s);
    var s1 := NoXlsx(Added(s, leaves));
    assert Toggled(s, leaves) == s1;
    AddLeaves(s, leaves);
    forall k | 0 <= k < |leaves| ensures leaves[k] in s1 {
      assert leaves[k] in leaves;
    }
    CountAll(leaves, s1);
    forall x ensures x in Without(s1, leaves) <==> x in s && x !in leaves {
      WithoutMembers(s1, leaves, x);
      if x in s {
        var k :| 0 <= k < |s| && s[k] == x;
      }
    }
    assert leaves[i] in leaves;
  }

  /**
   * A subtree with an ".xlsx" leaf never counts as full, so every click
   * selects: a second click leaves the ids the first one selected.
   */
  lemma ToggleTwiceWithXlsx(s: seq<string>, leaves: seq<string>, j: nat)
    requires NoDup(s) && XlsxFree(s) && j < |leaves| && IsXlsx(leaves[j])
    ensures forall x :: x in Toggled(Toggled(s, leaves), leaves) <==> x in Toggled(s, leaves)
    ensures forall x :: x in Toggled(s, leaves) <==> (x in s || x in leaves) && !IsXlsx(x)
  {
    XlsxNeverFull(leaves, s, j);
    var s1 := NoXlsx(Added(s, leaves));
    AddLeaves(s, leaves);
    XlsxNeverFull(leaves, s1, j);
    AddLeaves(s1, leaves);
  }
}
