/**
 * The selection toggle of client/src/components/CategoryFilter.tsx
 * (`toggleCategory`, lines 50-55) and the checkbox state derived from the
 * selection (line 73). The selection is an array of item ids; a toggle
 * builds a new array and never changes the old one.
 */
module CategoryFilter {
  import opened Seqs

  /** `selection.filter(id => id !== x)`. */
  function Without(s: seq<string>, x: string): (r: seq<string>)
    ensures x !in r
    ensures |r| <= |s|
    ensures forall y :: y in r ==> y in s
  {
    if s == [] then []
    else if s[0] == x then Without(s[1..], x)
    else [s[0]] + Without(s[1..], x)
  }

  /** The checkbox of item `id` is checked (line 73). */
  predicate IsChecked(selection: seq<string>, id: string) {
    id in selection
  }

  /** `toggleCategory(id)`: drop every occurrence of a selected id, or append an unselected one. */
  function Toggle(selection: seq<string>, id: string): (r: seq<string>)
    ensures id in selection ==> id !in r
    ensures id !in selection ==> r == selection + [id]
  {
    if id in selection then Without(selection, id) else selection + [id]
  }

  /** Filtering out `x` keeps every other id, as often as it occurred. */
  lemma {:induction false} WithoutCounts(s: seq<string>, x: string)
    ensures forall y :: y != x ==> multiset(Without(s, x))[y] == multiset(s)[y]
  {
    if s != [] {
      WithoutCounts(s[1..], x);
      assert s == [s[0]] + s[1..];
    }
  }

  /** A sequence without `x` is left as it is by filtering out `x`. */
  lemma {:induction false} WithoutAbsent(s: seq<string>, x: string)
    requires x !in s
    ensures Without(s, x) == s
  {
    if s != [] {
      WithoutAbsent(s[1..], x);
    }
  }

  lemma {:induction false} WithoutAppend(s: seq<string>, t: seq<string>, x: string)
    ensures Without(s + t, x) == Without(s, x) + Without(t, x)
  {
    if s != [] {
      WithoutAppend(s[1..], t, x);
      assert (s + t)[1..] == s[1..] + t;
    } else {
      assert s + t == t;
    }
  }

  lemma NoDupTail(s: seq<string>)
    requires s != [] && NoDup(s)
    ensures NoDup(s[1..]) && s[0] !in s[1..]
  {
    forall i, j | 0 <= i < j < |s[1..]| ensures s[1..][i] != s[1..][j] {
      assert s[1..][i] == s[i + 1] && s[1..][j] == s[j + 1];
    }
    forall j | 0 <= j < |s[1..]| ensures s[1..][j] != s[0] {
      assert s[1..][j] == s[j + 1];
    }
  }

  lemma NoDupCons(a: string, s: seq<string>)
    requires NoDup(s) && a !in s
    ensures NoDup([a] + s)
  {
    var r := [a] + s;
    forall i, j | 0 <= i < j < |r| ensures r[i] != r[j] {
      assert r[j] == s[j - 1];
      if i > 0 {
        assert r[i] == s[i - 1];
      }
    }
  }

  lemma {:induction false} WithoutKeepsNoDup(s: seq<string>, x: string)
    requires NoDup(s)
    ensures NoDup(Without(s, x))
  {
    if s != [] {
      NoDupTail(s);
      WithoutKeepsNoDup(s[1..], x);
      if s[0] != x {
        NoDupCons(s[0], Without(s[1..], x));
      }
    }
  }

  /** After a toggle the toggled id's checkbox flips and every other one stays as it was. */
  lemma ToggleFlips(selection: seq<string>, id: string)
    ensures IsChecked(Toggle(selection, id), id) <==> !IsChecked(selection, id)
    ensures forall other :: other != id ==>
      (IsChecked(Toggle(selection, id), other) <==> IsChecked(selection, other))
  {
    WithoutCounts(selection, id);
    forall other | other != id
      ensures other in Toggle(selection, id) <==> other in selection
    {
      assert other in Toggle(selection, id) <==> other in multiset(Toggle(selection, id));
      assert other in selection <==> other in multiset(selection);
    }
  }

  /**
   * The other ids keep their relative order and multiplicity: with the
   * toggled id filtered out, the selection is the same before and after.
   */
  lemma ToggleKeepsOthers(selection: seq<string>, id: string)
    ensures Without(Toggle(selection, id), id) == Without(selection, id)
    ensures forall other :: other != id ==>
      multiset(Toggle(selection, id))[other] == multiset(selection)[other]
  {
    WithoutCounts(selection, id);
    if id in selection {
      WithoutAbsent(Without(selection, id), id);
    } else {
      WithoutAppend(selection, [id], id);
      assert Without([id], id) == [];
    }
  }

  /** Toggling an unselected id twice gives the original selection back. */
  lemma ToggleTwiceAbsent(selection: seq<string>, id: string)
    requires id !in selection
    ensures Toggle(Toggle(selection, id), id) == selection
  {
    assert id in selection + [id];
    WithoutAppend(selection, [id], id);
    WithoutAbsent(selection, id);
    assert Without([id], id) == [];
  }

  /**
   * Toggling a selected id twice does not restore the selection in general:
   * all duplicates are removed, and the id comes back at the end.
   */
  lemma ToggleTwiceSelected()
    ensures Toggle(Toggle(["a", "a"], "a"), "a") == ["a"]
    ensures Toggle(Toggle(["a", "b"], "a"), "a") == ["b", "a"]
  {
    assert Without(["a", "a"], "a") == [];
    assert Without(["a", "b"], "a") == ["b"];
  }

  /** A selection without duplicates stays without duplicates. */
  lemma ToggleKeepsNoDup(selection: seq<string>, id: string)
    requires NoDup(selection)
    ensures NoDup(Toggle(selection, id))
  {
    if id in selection {
      WithoutKeepsNoDup(selection, id);
    }
  }
}
