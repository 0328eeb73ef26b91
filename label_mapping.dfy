/**
 * `map_labels_to_ids` of the transformer training script: the distinct category names,
 * sorted the way Python sorts strings, numbered 0..k-1; the inverse numbering; and each
 * input category replaced by its number.
 */
module LabelMapping {
  import opened Strings

  /** Every element is smaller than every later one: sorted, without repeats. */
  predicate StrictlySorted(s: seq<string>) {
    forall i, j :: 0 <= i < j < |s| ==> Less(s[i], s[j])
  }

  /** Inserts `x` into a strictly sorted sequence, unless it is already there. */
  function Insert(x: string, s: seq<string>): (r: seq<string>)
    requires StrictlySorted(s)
    ensures StrictlySorted(r)
    ensures forall y :: y in r <==> y in s || y == x
  {
    if |s| == 0 then [x]
    else if x == s[0] then s
    else if Less(x, s[0]) then
      InsertFront(x, s);
      [x] + s
    else
      LessTotal(x, s[0]);
      var t := Insert(x, s[1..]);
      SortedCons(s[0], t);
      [s[0]] + t
  }

  lemma InsertFront(x: string, s: seq<string>)
    requires StrictlySorted(s) && |s| > 0 && Less(x, s[0])
    ensures StrictlySorted([x] + s)
  {
    forall j | 0 < j < |s| ensures Less(x, s[j]) {
      LessTransitive(x, s[0], s[j]);
    }
  }

  lemma SortedCons(h: string, t: seq<string>)
    requires StrictlySorted(t) && forall y :: y in t ==> Less(h, y)
    ensures StrictlySorted([h] + t)
  {
    var r := [h] + t;
    forall i, j | 0 <= i < j < |r| ensures Less(r[i], r[j]) {
      if i == 0 {
        assert r[j] == t[j - 1] && t[j - 1] in t;
      } else {
        assert r[i] == t[i - 1] && r[j] == t[j - 1];
      }
    }
  }

  /** `sorted(set(categories))`. */
  function SortedUnique(categories: seq<string>): (u: seq<string>)
    ensures StrictlySorted(u)
    ensures forall y :: y in u <==> y in categories
  {
    if |categories| == 0 then []
    else
      var init := categories[..|categories| - 1];
      assert categories == init + [categories[|categories| - 1]];
      Insert(categories[|categories| - 1], SortedUnique(init))
  }

  /** A strictly sorted sequence is determined by its elements. */
  lemma {:induction false} SortedUniqueness(a: seq<string>, b: seq<string>)
    requires StrictlySorted(a) && StrictlySorted(b)
    requires forall y :: y in a <==> y in b
    ensures a == b
    decreases |a|
  {
    if |a| > 0 && |b| > 0 {
      assert a[0] in a && b[0] in b;
      var i :| 0 <= i < |a| && a[i] == b[0];
      var j :| 0 <= j < |b| && b[j] == a[0];
      if i > 0 && j > 0 {
        LessTotal(a[0], b[0]);
      } else if i > 0 {
        LessIrreflexive(a[0]);
      } else if j > 0 {
        LessIrreflexive(b[0]);
      }
      assert a[0] == b[0];
      forall y ensures y in a[1..] <==> y in b[1..] {
        if y in a[1..] {
          var k :| 1 <= k < |a| && a[k] == y;
          assert y != a[0] by { LessIrreflexive(y); }
          assert y in b;
        }
        if y in b[1..] {
          var k :| 1 <= k < |b| && b[k] == y;
          assert y != b[0] by { LessIrreflexive(y); }
          assert y in a;
        }
      }
      SortedUniqueness(a[1..], b[1..]);
      assert a == [a[0]] + a[1..] && b == [b[0]] + b[1..];
    } else if |a| > 0 {
      FirstIsMember(b, a);
    } else if |b| > 0 {
      FirstIsMember(a, b);
    }
  }

  /** The first element of a sequence whose members all occur in `e` occurs in `e`. */
  lemma FirstIsMember(e: seq<string>, s: seq<string>)
    requires |s| > 0 && forall y :: y in s ==> y in e
    ensures s[0] in e
  {
  }

  /** The three results of `map_labels_to_ids`. */
  datatype LabelMaps = LabelMaps(ids: seq<int>, labelMap: map<string, int>, idToLabel: map<int, string>)

  /** No element occurs twice. */
  predicate Distinct(u: seq<string>) {
    forall i, j :: 0 <= i < |u| && 0 <= j < |u| && u[i] == u[j] ==> i == j
  }

  lemma SortedDistinct(u: seq<string>)
    requires StrictlySorted(u)
    ensures Distinct(u)
  {
    forall i, j | 0 <= i < |u| && 0 <= j < |u| && u[i] == u[j] ensures i == j {
      if i < j {
        LessIrreflexive(u[i]);
      } else if j < i {
        LessIrreflexive(u[j]);
      }
    }
  }

  /** `{cat: i for i, cat in enumerate(u)}`: each element numbered by its position. */
  function Numbering(u: seq<string>): (m: map<string, int>)
    requires Distinct(u)
    ensures forall i :: 0 <= i < |u| ==> u[i] in m && m[u[i]] == i
    ensures forall c :: c in m ==> 0 <= m[c] < |u| && u[m[c]] == c
  {
    map i | 0 <= i < |u| :: u[i] := i
  }

  /** No two keys share a value. */
  predicate Injective(m: map<string, int>) {
    forall a, b :: a in m && b in m && a != b ==> m[a] != m[b]
  }

  /** `{i: cat for cat, i in m.items()}`. */
  function Inverse(m: map<string, int>): map<int, string>
    requires Injective(m)
  {
    map c | c in m :: m[c] := c
  }

  /**
   * The numbering of the sorted categories, its inverse, and the number of each input
   * category.
   */
  function MapLabelsToIds(categories: seq<string>): LabelMaps {
    var u := SortedUnique(categories);
    SortedDistinct(u);
    var labelMap := Numbering(u);
    assert forall k :: 0 <= k < |categories| ==> categories[k] in labelMap by {
      forall k | 0 <= k < |categories| ensures categories[k] in labelMap {
        assert categories[k] in u;
      }
    }
    LabelMaps(seq(|categories|, k requires 0 <= k < |categories| => labelMap[categories[k]]),
              labelMap, Inverse(labelMap))
  }

  /** The number of elements of a sequence without repeats. */
  lemma {:induction false} DistinctCount(u: seq<string>)
    requires Distinct(u)
    ensures |set i | 0 <= i < |u| :: u[i]| == |u|
    decreases |u|
  {
    if |u| > 0 {
      var init := u[..|u| - 1];
      DistinctCount(init);
      var s := set i | 0 <= i < |u| :: u[i];
      var si := set i | 0 <= i < |init| :: init[i];
      assert s == si + {u[|u| - 1]};
      assert u[|u| - 1] !in si;
    }
  }

  /** The keys of a numbering are the elements numbered. */
  lemma NumberingKeys(u: seq<string>)
    requires Distinct(u)
    ensures Numbering(u).Keys == set i | 0 <= i < |u| :: u[i]
    ensures |Numbering(u).Keys| == |u|
  {
    var m := Numbering(u);
    DistinctCount(u);
    forall c | c in m ensures c in set i | 0 <= i < |u| :: u[i] {
      assert u[m[c]] == c;
    }
  }

  /** The label map's keys are exactly the categories that occur, one per distinct category. */
  lemma LabelMapKeys(categories: seq<string>)
    ensures var m := MapLabelsToIds(categories).labelMap;
      (forall c :: c in m <==> c in categories) && |m| == |set c | c in categories|
  {
    var u := SortedUnique(categories);
    SortedDistinct(u);
    var m := Numbering(u);
    assert MapLabelsToIds(categories).labelMap == m;
    NumberingKeys(u);
    assert forall c :: c in m <==> c in u;
    assert (set c | c in categories) == m.Keys;
  }

  /** A numbering's ids are the positions 0..|u|-1, each used once. */
  lemma NumberingRange(u: seq<string>)
    requires Distinct(u)
    ensures var m := Numbering(u);
      |m| == |u| && (forall i :: 0 <= i < |u| <==> i in m.Values) && Injective(m)
  {
    var m := Numbering(u);
    DistinctCount(u);
    assert m.Keys == set i | 0 <= i < |u| :: u[i];
    forall i | 0 <= i < |u| ensures i in m.Values {
      assert u[i] in m && m[u[i]] == i;
    }
  }

  /** Numbering a strictly sorted sequence keeps the order of its elements. */
  lemma {:induction false} NumberingOrder(u: seq<string>)
    requires StrictlySorted(u)
    ensures Distinct(u)
    ensures var m := Numbering(u);
      forall a, b :: a in m && b in m ==> (Less(a, b) <==> m[a] < m[b])
  {
    SortedDistinct(u);
    var m := Numbering(u);
    forall a, b | a in m && b in m ensures Less(a, b) <==> m[a] < m[b] {
      var i, j := m[a], m[b];
      if i < j {
        assert Less(u[i], u[j]);
      } else if Less(a, b) {
        if i == j {
          LessIrreflexive(a);
        } else {
          assert Less(u[j], u[i]);
          LessTotal(a, b);
        }
      }
    }
  }

  /**
   * The ids are 0..k-1, each used once, and follow the sorted order of the names:
   * a smaller name has a smaller id.
   */
  lemma LabelMapIds(categories: seq<string>)
    ensures var m := MapLabelsToIds(categories).labelMap;
      (forall i :: 0 <= i < |m| <==> i in m.Values) &&
      Injective(m) &&
      (forall a, b :: a in m && b in m ==> (Less(a, b) <==> m[a] < m[b]))
  {
    var u := SortedUnique(categories);
    NumberingOrder(u);
    NumberingRange(u);
  }

  /** The id-to-label map undoes the label map, and the other way round. */
  lemma MapsAreInverse(categories: seq<string>)
    ensures var r := MapLabelsToIds(categories);
      (forall c :: c in r.labelMap ==> r.labelMap[c] in r.idToLabel && r.idToLabel[r.labelMap[c]] == c) &&
      (forall i :: i in r.idToLabel ==> r.idToLabel[i] in r.labelMap && r.labelMap[r.idToLabel[i]] == i)
  {
    var r := MapLabelsToIds(categories);
    forall i | i in r.idToLabel
      ensures r.idToLabel[i] in r.labelMap && r.labelMap[r.idToLabel[i]] == i
    {
      var c :| c in r.labelMap && r.labelMap[c] == i;
      assert r.idToLabel[i] == c;
    }
  }

  /** One id per input category, in order, each the number of that category. */
  lemma IdsSpec(categories: seq<string>)
    ensures var r := MapLabelsToIds(categories);
      |r.ids| == |categories| &&
      forall k :: 0 <= k < |categories| ==> categories[k] in r.labelMap && r.ids[k] == r.labelMap[categories[k]]
  {
    LabelMapKeys(categories);
  }

  /** Both maps depend only on which categories occur, not on their order or repetition. */
  lemma MapsDependOnlyOnTheSet(c1: seq<string>, c2: seq<string>)
    requires forall y :: y in c1 <==> y in c2
    ensures MapLabelsToIds(c1).labelMap == MapLabelsToIds(c2).labelMap
    ensures MapLabelsToIds(c1).idToLabel == MapLabelsToIds(c2).idToLabel
  {
    SortedUniqueness(SortedUnique(c1), SortedUnique(c2));
  }
}
