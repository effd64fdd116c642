/**
 * The conversion pass of scripts/convert-categories.js: the spreadsheet rows
 * are grouped by their raw Category name with a `reduce` over a plain object
 * (lines 15-34), and the object's entries become the output categories
 * (lines 37-41). Reading the workbook and writing the JSON file are not part
 * of this model.
 */
module ConvertCategories {
  import opened Wrappers
  import opened Slug
  import opened Seqs

  /** A spreadsheet row; a cell the sheet leaves out is None. */
  datatype Row = Row(category: Option<string>, items: Option<string>)

  datatype Item = Item(id: string, name: string)

  datatype Category = Category(id: string, name: string, items: seq<Item>)

  /** The `reduce` accumulator: its own keys in creation order and the list under each. */
  datatype Acc = Acc(keys: seq<string>, groups: map<string, seq<Item>>)

  /** `acc[name].push` threw because `acc[name]` was an inherited, non-array value. */
  datatype ConvertError = PushOnInherited(name: string)

  /**
   * The names under which a plain `{}` already answers a truthy value,
   * inherited from Object.prototype.
   */
  const InheritedNames: set<string> := {
    "constructor", "__defineGetter__", "__defineSetter__", "hasOwnProperty",
    "__lookupGetter__", "__lookupSetter__", "isPrototypeOf",
    "propertyIsEnumerable", "toString", "valueOf", "__proto__", "toLocaleString"
  }

  /** A cell is truthy when it is present and not the empty string. */
  predicate Truthy(cell: Option<string>) {
    cell.Some? && cell.value != ""
  }

  predicate IsValid(row: Row) {
    Truthy(row.category) && Truthy(row.items)
  }

  /** The item a valid row contributes. */
  function ItemOf(row: Row): Item
    requires IsValid(row)
  {
    Item(Slugify(row.items.value), row.items.value)
  }

  /** The accumulator is consistent: its keys are distinct and are exactly the map's keys. */
  ghost predicate Consistent(acc: Acc) {
    NoDup(acc.keys) && (forall k :: k in acc.groups <==> k in acc.keys)
  }

  // ---------------------------------------------------------------------
  // Specification of the reduce, one row at a time

  lemma NoDupSnoc(s: seq<string>, x: string)
    ensures NoDup(s) && x !in s ==> NoDup(s + [x])
  {
    if NoDup(s) && x !in s {
      var t := s + [x];
      forall i, j | 0 <= i < j < |t| ensures t[i] != t[j] {
        assert t[i] == s[i];
        if j < |s| {
          assert t[j] == s[j];
        }
      }
    }
  }

  /**
   * One call of the reducer callback (lines 15-34). It throws only for a
   * name that is inherited and not yet a key; otherwise it keeps the
   * accumulator consistent; StepExtends shows it only ever extends a list
   * already started.
   */
  function Step(acc: Acc, row: Row): (r: Result<Acc, ConvertError>)
    ensures r.Failure? ==> r.error.name in InheritedNames && r.error.name !in acc.groups
    ensures Consistent(acc) && r.Success? ==> Consistent(r.value)
  {
    if !IsValid(row) then Success(acc)
    else
      var name := row.category.value;
      if name in acc.groups then
        Success(Acc(acc.keys, acc.groups[name := acc.groups[name] + [ItemOf(row)]]))
      else if name in InheritedNames then
        Failure(PushOnInherited(name))
      else
        NoDupSnoc(acc.keys, name);
        Success(Acc(acc.keys + [name], acc.groups[name := [ItemOf(row)]]))
  }

  /** A successful step keeps every key and only appends to the list under it. */
  lemma StepExtends(acc: Acc, row: Row)
    ensures Step(acc, row).Success? ==>
      forall k :: k in acc.groups ==> k in Step(acc, row).value.groups && acc.groups[k] <= Step(acc, row).value.groups[k]
  {
  }

  /**
   * `rows.reduce(callback, {})`; the first exception ends the fold. A
   * successful fold leaves a consistent object; a failed one names an
   * inherited property.
   */
  function Fold(rows: seq<Row>): (r: Result<Acc, ConvertError>)
    ensures r.Success? ==> Consistent(r.value)
    ensures r.Failure? ==> r.error.name in InheritedNames
    decreases |rows|
  {
    if rows == [] then Success(Acc([], map[]))
    else
      match Fold(rows[..|rows| - 1])
      case Failure(e) => Failure(e)
      case Success(acc) => Step(acc, rows[|rows| - 1])
  }

  /** Once the fold has thrown, later rows do not change the outcome. */
  lemma {:induction false} FoldFailureSticks(rows: seq<Row>, k: nat)
    requires k <= |rows| && Fold(rows[..k]).Failure?
    ensures Fold(rows) == Fold(rows[..k])
    decreases |rows| - k
  {
    if k < |rows| {
      assert rows[..k + 1][..k] == rows[..k];
      FoldFailureSticks(rows, k + 1);
    } else {
      assert rows[..k] == rows;
    }
  }

  /** The reduce of lines 15-34, mutating one accumulator row by row. */
  method Group(rows: seq<Row>) returns (r: Result<Acc, ConvertError>)
    ensures r == Fold(rows)
  {
    var keys: seq<string> := [];
    var groups: map<string, seq<Item>> := map[];
    var i := 0;
    while i < |rows|
      invariant 0 <= i <= |rows|
      invariant Fold(rows[..i]) == Success(Acc(keys, groups))
    {
      var row := rows[i];
      ghost var before := Acc(keys, groups);
      assert rows[..i + 1][..i] == rows[..i] && rows[..i + 1][i] == row;
      assert Fold(rows[..i + 1]) == Step(before, row);
      if IsValid(row) {
        var name := row.category.value;
        if name !in groups && name !in InheritedNames {
          keys := keys + [name];
          groups := groups[name := []];
        }
        if name !in groups {
          r := Failure(PushOnInherited(name));
          FoldFailureSticks(rows, i + 1);
          return;
        }
        groups := groups[name := groups[name] + [ItemOf(row)]];
        if name in before.groups {
          assert Step(before, row) == Success(Acc(keys, groups));
        } else {
          assert groups[name] == [ItemOf(row)];
          assert forall k :: k in groups && k != name ==> groups[k] == before.groups[k];
          assert groups == before.groups[name := [ItemOf(row)]];
        }
      }
      i := i + 1;
    }
    assert rows[..i] == rows;
    r := Success(Acc(keys, groups));
  }

  // ---------------------------------------------------------------------
  // Reference definitions of what the grouping collects

  /** The Category names of the valid rows, in row order, repeats included. */
  function ValidNames(rows: seq<Row>): seq<string> {
    if rows == [] then []
    else ValidNames(rows[..|rows| - 1])
         + (if IsValid(rows[|rows| - 1]) then [rows[|rows| - 1].category.value] else [])
  }

  /** The valid rows, in row order. */
  function ValidRows(rows: seq<Row>): seq<Row> {
    if rows == [] then []
    else ValidRows(rows[..|rows| - 1]) + (if IsValid(rows[|rows| - 1]) then [rows[|rows| - 1]] else [])
  }

  /** The items of the valid rows whose Category is `name`, in row order. */
  function ItemsOf(rows: seq<Row>, name: string): seq<Item> {
    if rows == [] then []
    else
      var last := rows[|rows| - 1];
      ItemsOf(rows[..|rows| - 1], name)
      + (if IsValid(last) && last.category.value == name then [ItemOf(last)] else [])
  }

  /** The distinct elements of `s`, each at its first appearance. */
  function Dedup(s: seq<string>): (r: seq<string>)
    ensures NoDup(r)
    ensures forall x :: x in r <==> x in s
  {
    if s == [] then []
    else
      var d := Dedup(s[..|s| - 1]);
      if s[|s| - 1] in d then d else d + [s[|s| - 1]]
  }

  /** Sum of the list lengths under `keys`. */
  function TotalItems(keys: seq<string>, groups: map<string, seq<Item>>): nat {
    if keys == [] then 0
    else
      var k := keys[|keys| - 1];
      TotalItems(keys[..|keys| - 1], groups) + (if k in groups then |groups[k]| else 0)
  }

  /** The fold throws exactly when a valid row names an inherited member. */
  predicate NamesInherited(rows: seq<Row>) {
    exists i :: 0 <= i < |rows| && IsValid(rows[i]) && rows[i].category.value in InheritedNames
  }

  // ---------------------------------------------------------------------
  // What the fold computes

  lemma TotalItemsFrame(keys: seq<string>, g: map<string, seq<Item>>, g': map<string, seq<Item>>, name: string, extra: nat)
    requires NoDup(keys)
    requires forall k :: k in keys ==> k in g && k in g'
    requires forall k :: k in keys && k != name ==> g'[k] == g[k]
    requires name in keys ==> |g'[name]| == |g[name]| + extra
    ensures TotalItems(keys, g') == TotalItems(keys, g) + (if name in keys then extra else 0)
  {
    if keys != [] {
      var init := keys[..|keys| - 1];
      assert forall k :: k in init ==> k in keys;
      assert NoDup(init);
      assert keys[|keys| - 1] !in init;
      TotalItemsFrame(init, g, g', name, extra);
    }
  }

  lemma {:induction false} InValidNames(rows: seq<Row>, x: string)
    ensures x in ValidNames(rows) <==>
      exists i :: 0 <= i < |rows| && IsValid(rows[i]) && rows[i].category.value == x
  {
    if rows != [] {
      var init := rows[..|rows| - 1];
      InValidNames(init, x);
      if x in ValidNames(rows) && x !in ValidNames(init) {
        assert IsValid(rows[|rows| - 1]) && rows[|rows| - 1].category.value == x;
      }
      if exists i :: 0 <= i < |rows| && IsValid(rows[i]) && rows[i].category.value == x {
        var i :| 0 <= i < |rows| && IsValid(rows[i]) && rows[i].category.value == x;
        if i < |init| {
          assert init[i] == rows[i];
        }
      }
    }
  }

  lemma NamesInheritedSnoc(rows: seq<Row>)
    requires rows != []
    ensures var init, last := rows[..|rows| - 1], rows[|rows| - 1];
      NamesInherited(rows) <==>
        NamesInherited(init) || (IsValid(last) && last.category.value in InheritedNames)
  {
    var init := rows[..|rows| - 1];
    if NamesInherited(init) {
      var i :| 0 <= i < |init| && IsValid(init[i]) && init[i].category.value in InheritedNames;
      assert rows[i] == init[i];
    }
    if NamesInherited(rows) {
      var i :| 0 <= i < |rows| && IsValid(rows[i]) && rows[i].category.value in InheritedNames;
      if i < |init| {
        assert rows[i] == init[i];
      }
    }
  }

  /**
   * The fold throws exactly when a valid row names an inherited member;
   * otherwise its keys are the valid Category names in first-appearance
   * order, each once, and they are exactly the keys of its map.
   */
  lemma {:induction false} FoldKeys(rows: seq<Row>)
    ensures Fold(rows).Success? <==> !NamesInherited(rows)
    ensures Fold(rows).Success? ==>
      Consistent(Fold(rows).value) && Fold(rows).value.keys == Dedup(ValidNames(rows))
    decreases |rows|
  {
    if rows != [] {
      var init := rows[..|rows| - 1];
      var last := rows[|rows| - 1];
      FoldKeys(init);
      NamesInheritedSnoc(rows);
      if Fold(init).Success? && IsValid(last) {
        var acc := Fold(init).value;
        var name := last.category.value;
        assert ValidNames(rows) == ValidNames(init) + [name];
        if name in acc.groups {
          assert name in ValidNames(init);
          InValidNames(init, name);
          var i :| 0 <= i < |init| && IsValid(init[i]) && init[i].category.value == name;
          assert name !in InheritedNames;
        } else if name !in InheritedNames {
          var keys' := acc.keys + [name];
          assert name !in acc.keys;
          forall i, j | 0 <= i < j < |keys'| ensures keys'[i] != keys'[j] {
            if j < |acc.keys| {
              assert keys'[i] == acc.keys[i] && keys'[j] == acc.keys[j];
            } else {
              assert keys'[i] == acc.keys[i];
            }
          }
        }
      } else if Fold(init).Success? {
        assert ValidNames(rows) == ValidNames(init);
      }
    }
  }

  /** Under each key the fold holds that name's items, in row order. */
  lemma {:induction false} FoldItems(rows: seq<Row>)
    ensures Fold(rows).Success? ==>
      forall k :: k in Fold(rows).value.groups ==> Fold(rows).value.groups[k] == ItemsOf(rows, k)
    decreases |rows|
  {
    if rows != [] && Fold(rows).Success? {
      var init := rows[..|rows| - 1];
      var last := rows[|rows| - 1];
      FoldItems(init);
      FoldKeys(init);
      var acc := Fold(init).value;
      var g := Fold(rows).value.groups;
      assert Fold(rows) == Step(acc, last);
      forall k | k in g
        ensures g[k] == ItemsOf(rows, k)
      {
        var mine := IsValid(last) && last.category.value == k;
        assert ItemsOf(rows, k) == ItemsOf(init, k) + (if mine then [ItemOf(last)] else []);
        if k in acc.groups {
          assert g[k] == acc.groups[k] + (if mine then [ItemOf(last)] else []);
        } else {
          assert mine && g[k] == [ItemOf(last)];
          ItemsOfAbsent(init, k);
        }
      }
    }
  }

  lemma {:induction false} ItemsOfAbsent(rows: seq<Row>, k: string)
    requires k !in ValidNames(rows)
    ensures ItemsOf(rows, k) == []
  {
    if rows != [] {
      ItemsOfAbsent(rows[..|rows| - 1], k);
    }
  }

  /** The fold holds one item per valid row, no more and no fewer. */
  lemma {:induction false} FoldTotal(rows: seq<Row>)
    ensures Fold(rows).Success? ==>
      TotalItems(Fold(rows).value.keys, Fold(rows).value.groups) == |ValidRows(rows)|
    decreases |rows|
  {
    if rows != [] && Fold(rows).Success? {
      var init := rows[..|rows| - 1];
      var last := rows[|rows| - 1];
      FoldTotal(init);
      FoldKeys(init);
      var acc := Fold(init).value;
      var acc' := Fold(rows).value;
      assert Fold(rows) == Step(acc, last);
      if IsValid(last) {
        var name := last.category.value;
        assert ValidRows(rows) == ValidRows(init) + [last];
        if name in acc.groups {
          assert acc'.keys == acc.keys;
          TotalItemsFrame(acc.keys, acc.groups, acc'.groups, name, 1);
        } else {
          assert acc'.keys == acc.keys + [name];
          assert acc'.keys[..|acc'.keys| - 1] == acc.keys;
          TotalItemsFrame(acc.keys, acc.groups, acc'.groups, name, 0);
        }
      } else {
        assert ValidRows(rows) == ValidRows(init);
      }
    }
  }

  // ---------------------------------------------------------------------
  // Object.entries order and the final map (lines 37-41)

  predicate IsDigit(c: char) {
    '0' <= c <= '9'
  }

  predicate AllDigits(s: string) {
    forall i :: 0 <= i < |s| ==> IsDigit(s[i])
  }

  function DecimalValue(s: string): nat
    requires AllDigits(s)
  {
    if s == [] then 0
    else
      var d := s[|s| - 1];
      assert IsDigit(d);
      DecimalValue(s[..|s| - 1]) * 10 + (d as int - '0' as int)
  }

  /**
   * A property key that is an array index: the canonical decimal form of an
   * integer below 2^32 - 1. Object.entries lists such keys first.
   */
  predicate IsArrayIndex(s: string) {
    && |s| >= 1
    && AllDigits(s)
    && (s[0] != '0' || |s| == 1)
    && DecimalValue(s) < 0xFFFF_FFFF
  }

  predicate AllIndexes(s: seq<string>) {
    forall i :: 0 <= i < |s| ==> IsArrayIndex(s[i])
  }

  predicate SortedByIndex(s: seq<string>)
    requires AllIndexes(s)
  {
    forall i, j :: 0 <= i < j < |s| ==> DecimalValue(s[i]) <= DecimalValue(s[j])
  }

  function IndexKeys(keys: seq<string>): (r: seq<string>)
    ensures AllIndexes(r)
  {
    if keys == [] then []
    else IndexKeys(keys[..|keys| - 1]) + (if IsArrayIndex(keys[|keys| - 1]) then [keys[|keys| - 1]] else [])
  }

  function OtherKeys(keys: seq<string>): seq<string> {
    if keys == [] then []
    else OtherKeys(keys[..|keys| - 1]) + (if IsArrayIndex(keys[|keys| - 1]) then [] else [keys[|keys| - 1]])
  }

  function InsertByIndex(k: string, s: seq<string>): (r: seq<string>)
    requires IsArrayIndex(k) && AllIndexes(s)
    ensures multiset(r) == multiset(s) + multiset{k} && |r| == |s| + 1
    ensures AllIndexes(r)
  {
    if s == [] then [k]
    else if DecimalValue(k) <= DecimalValue(s[0]) then [k] + s
    else
      assert s == [s[0]] + s[1..];
      [s[0]] + InsertByIndex(k, s[1..])
  }

  lemma InsertByIndexElems(k: string, s: seq<string>, x: string)
    requires IsArrayIndex(k) && AllIndexes(s)
    requires x in InsertByIndex(k, s)
    ensures x == k || x in s
  {
    assert x in multiset(InsertByIndex(k, s));
  }

  lemma SortedTail(s: seq<string>)
    requires s != [] && AllIndexes(s) && SortedByIndex(s)
    ensures AllIndexes(s[1..]) && SortedByIndex(s[1..])
  {
    forall i, j | 0 <= i < j < |s[1..]|
      ensures DecimalValue(s[1..][i]) <= DecimalValue(s[1..][j])
    {
      assert s[1..][i] == s[i + 1] && s[1..][j] == s[j + 1];
    }
  }

  lemma SortedCons(x: string, t: seq<string>)
    requires IsArrayIndex(x) && AllIndexes(t) && SortedByIndex(t)
    requires forall j :: 0 <= j < |t| ==> DecimalValue(x) <= DecimalValue(t[j])
    ensures AllIndexes([x] + t) && SortedByIndex([x] + t)
  {
    var r := [x] + t;
    forall i, j | 0 <= i < j < |r|
      ensures DecimalValue(r[i]) <= DecimalValue(r[j])
    {
      assert r[j] == t[j - 1];
      if i > 0 {
        assert r[i] == t[i - 1];
      }
    }
  }

  lemma {:induction false} InsertByIndexSorted(k: string, s: seq<string>)
    requires IsArrayIndex(k) && AllIndexes(s) && SortedByIndex(s)
    ensures SortedByIndex(InsertByIndex(k, s))
  {
    if s == [] {
    } else if DecimalValue(k) <= DecimalValue(s[0]) {
      SortedCons(k, s);
    } else {
      var rest := InsertByIndex(k, s[1..]);
      SortedTail(s);
      InsertByIndexSorted(k, s[1..]);
      forall j | 0 <= j < |rest|
        ensures DecimalValue(s[0]) <= DecimalValue(rest[j])
      {
        InsertByIndexElems(k, s[1..], rest[j]);
        if rest[j] != k {
          var m :| 0 <= m < |s[1..]| && s[1..][m] == rest[j];
          assert s[m + 1] == rest[j];
        }
      }
      SortedCons(s[0], rest);
    }
  }

  /** Array-index keys in ascending numeric order. */
  function SortByIndex(s: seq<string>): (r: seq<string>)
    requires AllIndexes(s)
    ensures multiset(r) == multiset(s) && |r| == |s|
    ensures AllIndexes(r)
  {
    if s == [] then []
    else
      assert s == s[..|s| - 1] + [s[|s| - 1]];
      InsertByIndex(s[|s| - 1], SortByIndex(s[..|s| - 1]))
  }

  lemma {:induction false} SortByIndexSorted(s: seq<string>)
    requires AllIndexes(s)
    ensures SortedByIndex(SortByIndex(s))
  {
    if s != [] {
      SortByIndexSorted(s[..|s| - 1]);
      InsertByIndexSorted(s[|s| - 1], SortByIndex(s[..|s| - 1]));
    }
  }

  /** The order in which Object.entries lists an ordinary object's own keys. */
  function EntriesOrder(keys: seq<string>): seq<string> {
    SortByIndex(IndexKeys(keys)) + OtherKeys(keys)
  }

  lemma {:induction false} IndexAndOtherKeys(keys: seq<string>)
    ensures multiset(IndexKeys(keys)) + multiset(OtherKeys(keys)) == multiset(keys)
  {
    if keys != [] {
      var init, last := keys[..|keys| - 1], keys[|keys| - 1];
      IndexAndOtherKeys(init);
      assert keys == init + [last];
      var idx, other := if IsArrayIndex(last) then [last] else [], if IsArrayIndex(last) then [] else [last];
      assert IndexKeys(keys) == IndexKeys(init) + idx;
      assert OtherKeys(keys) == OtherKeys(init) + other;
      assert multiset(IndexKeys(keys)) == multiset(IndexKeys(init)) + multiset(idx);
      assert multiset(OtherKeys(keys)) == multiset(OtherKeys(init)) + multiset(other);
      assert multiset(idx) + multiset(other) == multiset{last};
      assert multiset(keys) == multiset(init) + multiset{last};
    }
  }


  lemma {:induction false} OtherKeysAll(keys: seq<string>)
    requires forall i :: 0 <= i < |keys| ==> !IsArrayIndex(keys[i])
    ensures IndexKeys(keys) == [] && OtherKeys(keys) == keys
  {
    if keys != [] {
      OtherKeysAll(keys[..|keys| - 1]);
      assert keys == keys[..|keys| - 1] + [keys[|keys| - 1]];
    }
  }

  /**
   * Object.entries lists every key once: array indexes first in ascending
   * order, the other keys after them in creation order; without array-index
   * keys the creation order is kept as it is.
   */
  lemma EntriesOrderSpec(keys: seq<string>)
    ensures multiset(EntriesOrder(keys)) == multiset(keys)
    ensures var n := |IndexKeys(keys)|;
      && AllIndexes(EntriesOrder(keys)[..n])
      && SortedByIndex(EntriesOrder(keys)[..n])
      && EntriesOrder(keys)[n..] == OtherKeys(keys)
    ensures (forall i :: 0 <= i < |keys| ==> !IsArrayIndex(keys[i])) ==> EntriesOrder(keys) == keys
  {
    IndexAndOtherKeys(keys);
    var sorted := SortByIndex(IndexKeys(keys));
    SortByIndexSorted(IndexKeys(keys));
    assert EntriesOrder(keys)[..|sorted|] == sorted;
    if forall i :: 0 <= i < |keys| ==> !IsArrayIndex(keys[i]) {
      OtherKeysAll(keys);
    }
  }

  lemma EntriesOrderMembers(keys: seq<string>)
    ensures forall i :: 0 <= i < |EntriesOrder(keys)| ==> EntriesOrder(keys)[i] in keys
  {
    var order := EntriesOrder(keys);
    EntriesOrderSpec(keys);
    forall i | 0 <= i < |order| ensures order[i] in keys {
      assert order[i] in multiset(order);
    }
  }

  /** The `.map` of lines 37-41 over the entries of the accumulator. */
  function Categories(acc: Acc): (r: seq<Category>)
    requires Consistent(acc)
    ensures forall c :: c in r ==>
      c.name in acc.groups && c.id == Slugify(c.name) && c.items == acc.groups[c.name]
  {
    var order := EntriesOrder(acc.keys);
    EntriesOrderMembers(acc.keys);
    seq(|order|, i requires 0 <= i < |order| =>
      Category(Slugify(order[i]), order[i], acc.groups[order[i]]))
  }

  /** The whole conversion: the categories written, or the error caught at line 54. */
  function Convert(rows: seq<Row>): (r: Result<seq<Category>, ConvertError>)
    ensures r.Failure? ==> r.error.name in InheritedNames
    ensures r.Success? ==> forall c :: c in r.value ==> c.id == Slugify(c.name)
  {
    match Fold(rows)
    case Failure(e) => Failure(e)
    case Success(acc) => Success(Categories(acc))
  }

  function Names(cats: seq<Category>): (r: seq<string>)
    ensures |r| == |cats| && forall i :: 0 <= i < |cats| ==> r[i] == cats[i].name
  {
    seq(|cats|, i requires 0 <= i < |cats| => cats[i].name)
  }

  lemma {:induction false} NoDupCounts(s: seq<string>)
    ensures NoDup(s) <==> forall x :: multiset(s)[x] <= 1
  {
    if s != [] {
      var init, last := s[..|s| - 1], s[|s| - 1];
      assert s == init + [last];
      NoDupCounts(init);
      if NoDup(s) {
        assert NoDup(init);
        assert last !in init by {
          forall i | 0 <= i < |init| ensures init[i] != last {
            assert init[i] == s[i];
          }
        }
      }
      if forall x :: multiset(s)[x] <= 1 {
        forall x ensures multiset(init)[x] <= 1 {
          assert multiset(s)[x] == multiset(init)[x] + (if x == last then 1 else 0);
        }
        assert multiset(s)[last] == multiset(init)[last] + 1;
        forall i, j | 0 <= i < j < |s| ensures s[i] != s[j] {
          if j == |s| - 1 {
            assert s[i] == init[i];
          } else {
            assert s[i] == init[i] && s[j] == init[j];
          }
        }
      }
    }
  }

  lemma MultisetNoDup(s: seq<string>, t: seq<string>)
    requires NoDup(s) && multiset(s) == multiset(t)
    ensures NoDup(t)
  {
    NoDupCounts(s);
    NoDupCounts(t);
  }

  /** The conversion fails exactly when a valid row names an inherited member of `{}`. */
  lemma ConvertFails(rows: seq<Row>)
    ensures Convert(rows).Failure? <==> NamesInherited(rows)
    ensures Convert(rows).Failure? ==> Convert(rows).error.name in InheritedNames
  {
    FoldKeys(rows);
  }

  /**
   * Each output category carries the raw Category name, its slug as id, and
   * as items that name's valid rows, one `{id: slug(Items), name: Items}`
   * each, in row order, duplicates kept.
   */
  lemma ConvertItems(rows: seq<Row>)
    ensures Convert(rows).Success? ==>
      forall c :: c in Convert(rows).value ==>
        c.id == Slugify(c.name) && c.items == ItemsOf(rows, c.name)
  {
    FoldKeys(rows);
    FoldItems(rows);
    if Fold(rows).Success? {
      var acc := Fold(rows).value;
      var cats := Categories(acc);
      assert Convert(rows).value == cats;
      forall c | c in cats
        ensures c.id == Slugify(c.name) && c.items == ItemsOf(rows, c.name)
      {
        var i :| 0 <= i < |cats| && cats[i] == c;
        assert c.name in acc.groups && c.items == acc.groups[c.name];
      }
    }
  }

  /**
   * Every valid Category name yields exactly one output category, and the
   * categories come in Object.entries order of the names' first appearances.
   */
  lemma ConvertNames(rows: seq<Row>)
    ensures Convert(rows).Success? ==>
      var names := Names(Convert(rows).value);
      && names == EntriesOrder(Dedup(ValidNames(rows)))
      && NoDup(names)
      && (forall name :: name in names <==> name in ValidNames(rows))
  {
    FoldKeys(rows);
    if Fold(rows).Success? {
      var acc := Fold(rows).value;
      var names := Names(Convert(rows).value);
      var order := EntriesOrder(acc.keys);
      assert names == order;
      EntriesOrderSpec(acc.keys);
      MultisetNoDup(acc.keys, order);
      forall name ensures name in names <==> name in ValidNames(rows) {
        assert name in order <==> name in multiset(order);
        assert name in acc.keys <==> name in multiset(acc.keys);
      }
    }
  }

  /** Two valid rows with different, non-inherited names start two groups. */
  lemma {:induction false} FoldTwoNames(r0: Row, r1: Row)
    requires IsValid(r0) && IsValid(r1)
    requires r0.category.value != r1.category.value
    requires r0.category.value !in InheritedNames && r1.category.value !in InheritedNames
    ensures var n1, n2 := r0.category.value, r1.category.value;
      Fold([r0, r1]) == Success(Acc([n1, n2], map[n1 := [ItemOf(r0)], n2 := [ItemOf(r1)]]))
  {
    var n1, n2 := r0.category.value, r1.category.value;
    var empty := Acc([], map[]);
    var acc1 := Acc([n1], map[n1 := [ItemOf(r0)]]);
    var acc := Acc([n1, n2], map[n1 := [ItemOf(r0)], n2 := [ItemOf(r1)]]);
    assert Step(empty, r0) == Success(acc1) by {
      assert n1 !in empty.groups;
      assert empty.keys + [n1] == acc1.keys;
      assert empty.groups[n1 := [ItemOf(r0)]] == acc1.groups;
    }
    assert Step(acc1, r1) == Success(acc) by {
      assert n2 !in acc1.groups;
      assert acc1.keys + [n2] == acc.keys;
      assert acc1.groups[n2 := [ItemOf(r1)]] == acc.groups;
    }
    assert Fold([r0, r1][..1]) == Success(acc1) by {
      assert [r0, r1][..1] == [r0] && [r0][..0] == [];
      assert Fold([]) == Success(empty);
    }
  }

  /**
   * Grouping is keyed by the raw name: two different names give two
   * categories even when their slugs, and so their ids, coincide.
   */
  lemma RawNamesGroupSeparately(n1: string, n2: string, p: string, q: string)
    requires n1 != n2 && n1 != "" && n2 != "" && p != "" && q != ""
    requires n1 !in InheritedNames && n2 !in InheritedNames
    requires !IsArrayIndex(n1) && !IsArrayIndex(n2)
    ensures var rows := [Row(Some(n1), Some(p)), Row(Some(n2), Some(q))];
      && Convert(rows).Success?
      && Names(Convert(rows).value) == [n1, n2]
      && Convert(rows).value[0].id == Slugify(n1)
      && Convert(rows).value[1].id == Slugify(n2)
  {
    var r0, r1 := Row(Some(n1), Some(p)), Row(Some(n2), Some(q));
    FoldTwoNames(r0, r1);
    OtherKeysAll([n1, n2]);
    assert EntriesOrder([n1, n2]) == [n1, n2];
  }

  /** "Art" and "art" are different names with the same slug "art". */
  lemma ArtAndArtShareSlug()
    ensures "Art" != "art" && Slugify("Art") == Slugify("art") == "art"
    ensures !IsArrayIndex("Art") && !IsArrayIndex("art")
  {
    assert Lower("Art") == "art" by {
      LowerOfSlugChars("rt");
      assert "Art"[1..] == "rt";
    }
    SlugifyOfAlnum("art");
  }
}
