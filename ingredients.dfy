/**
 * `pre_processing_ingredients`: turns every raw recipe row into a record whose
 * ingredient text `"name: attribute, name: attribute, ..."` has become a dictionary
 * of normalised names and attributes, and whose energy text has become a calorie count.
 */
module Ingredients {
  import opened Text
  import opened Calories

  /** A Python dict from ingredient name to attribute. `keys` lists the keys in
      first-insertion order, the order in which `dict.keys()` yields them. */
  datatype Dict = Dict(keys: seq<string>, entries: map<string, string>)

  ghost predicate ValidDict(d: Dict) {
    && (forall a, b :: 0 <= a < b < |d.keys| ==> d.keys[a] != d.keys[b])
    && (forall k :: k in d.entries <==> k in d.keys)
  }

  /** `d[k] = v`: a new key goes to the end of the key order, an existing key keeps its
      place and gets the new value. */
  function Assign(d: Dict, k: string, v: string): (r: Dict)
    ensures ValidDict(d) ==> ValidDict(r)
  {
    if k in d.entries then d.(entries := d.entries[k := v])
    else Dict(d.keys + [k], d.entries[k := v])
  }

  /** One item `"name: attribute"`: kept, normalised, only when splitting it on `": "`
      gives exactly two parts. */
  function ParseItem(item: string): Option<(string, string)> {
    var parts := Split(item, ": ");
    if |parts| == 2 then Some((Normalise(parts[0]), Normalise(parts[1]))) else None
  }

  /** The results of `parse` on the elements it accepts, in order. */
  function Keep<T, U>(xs: seq<T>, parse: T -> Option<U>): (r: seq<U>)
    ensures |r| <= |xs|
  {
    if xs == [] then []
    else
      var last := parse(xs[|xs| - 1]);
      Keep(xs[..|xs| - 1], parse) + (if last.Some? then [last.value] else [])
  }

  /** The normalised pairs of the well-formed items, in item order. */
  function Pairs(items: seq<string>): seq<(string, string)> {
    Keep(items, ParseItem)
  }

  /** The dict built by assigning the pairs one after the other into an empty dict. */
  function Collect(pairs: seq<(string, string)>): Dict {
    if pairs == [] then Dict([], map[])
    else
      var p := pairs[|pairs| - 1];
      Assign(Collect(pairs[..|pairs| - 1]), p.0, p.1)
  }

  /** The ingredient dict of one raw ingredient text. */
  function FormatIngredients(ingredient: string): Dict {
    Collect(Pairs(Split(ingredient, ", ")))
  }

  /** A raw dataset row, with the columns the recommender reads. */
  datatype RawRow = RawRow(name: string, text: string, ingredient: string, energy: string, timeCook: string)

  /** A processed recipe record. */
  datatype Record = Record(
    name: string,
    text: string,
    ingredients: Dict,
    energy: nat,
    timeCook: string,
    strIngredients: string)

  /** The record built from one row. */
  function BuildRecord(row: RawRow): Record {
    var d := FormatIngredients(row.ingredient);
    Record(row.name, row.text, d, ExtractCalories(row.energy), row.timeCook, Join(d.keys, ", "))
  }

  /** f applied to every element of xs, in order. */
  function Each<T, U>(xs: seq<T>, f: T -> U): seq<U> {
    if xs == [] then [] else Each(xs[..|xs| - 1], f) + [f(xs[|xs| - 1])]
  }

  /** The records of a sequence of rows, one per row, in row order. */
  function BuildRecords(rows: seq<RawRow>): seq<Record> {
    Each(rows, BuildRecord)
  }

  /** `pre_processing_ingredients(recipes)`: one record per row, in row order; rows
      whose ingredient dict stays empty are kept as well. */
  method PreProcessIngredients(rows: seq<RawRow>) returns (records: seq<Record>)
    ensures records == BuildRecords(rows)
    ensures |records| == |rows|
    ensures forall i :: 0 <= i < |rows| ==> records[i] == BuildRecord(rows[i])
  {
    records := [];
    var r := 0;
    while r < |rows|
      invariant 0 <= r <= |rows|
      invariant records == BuildRecords(rows[..r])
    {
      var record := ProcessRow(rows[r]);
      records := records + [record];
      assert rows[..r + 1][..r] == rows[..r];
      r := r + 1;
    }
    assert rows[..r] == rows;
    BuildRecordsSpec(rows);
  }

  /** Element i of Each(xs, f) is f(xs[i]). */
  lemma {:induction false} EachSpec<T, U>(xs: seq<T>, f: T -> U)
    ensures |Each(xs, f)| == |xs|
    ensures forall i :: 0 <= i < |xs| ==> Each(xs, f)[i] == f(xs[i])
  {
    if xs != [] {
      var front := xs[..|xs| - 1];
      EachSpec(front, f);
      assert forall i :: 0 <= i < |front| ==> front[i] == xs[i];
    }
  }

  /** BuildRecords makes record i from row i. */
  lemma BuildRecordsSpec(rows: seq<RawRow>)
    ensures |BuildRecords(rows)| == |rows|
    ensures forall i :: 0 <= i < |rows| ==> BuildRecords(rows)[i] == BuildRecord(rows[i])
  {
    EachSpec(rows, BuildRecord);
  }

  /** The body of the loop over the rows: the ingredient dict, its keys joined into
      `str_ingredients`, and the calorie count of the energy text. */
  method ProcessRow(row: RawRow) returns (record: Record)
    ensures record == BuildRecord(row)
  {
    var formatted := FormatRow(row.ingredient);
    var strIngredients := Join(formatted.keys, ", ");
    var calories := ExtractCalories(row.energy);
    record := Record(row.name, row.text, formatted, calories, row.timeCook, strIngredients);
  }

  /** The inner loop of `pre_processing_ingredients`: split one ingredient text on
      `", "` and assign every two-part item, normalised, into a fresh dict. */
  method FormatRow(ingredient: string) returns (formatted: Dict)
    ensures formatted == FormatIngredients(ingredient)
  {
    var items := Split(ingredient, ", ");
    formatted := Dict([], map[]);
    var n := 0;
    while n < |items|
      invariant 0 <= n <= |items|
      invariant formatted == Collect(Pairs(items[..n]))
    {
      var parts := Split(items[n], ": ");
      if |parts| == 2 {
        var key := Normalise(parts[0]);
        formatted := Assign(formatted, key, Normalise(parts[1]));
      }
      CollectStep(items, n);
      n := n + 1;
    }
    assert items[..n] == items;
  }

  lemma KeepSnoc<T, U>(xs: seq<T>, parse: T -> Option<U>, n: nat)
    requires n < |xs|
    ensures Keep(xs[..n + 1], parse) ==
      Keep(xs[..n], parse) + (if parse(xs[n]).Some? then [parse(xs[n]).value] else [])
  {
    assert xs[..n + 1][..n] == xs[..n];
  }

  lemma CollectStep(items: seq<string>, n: nat)
    requires n < |items|
    ensures Collect(Pairs(items[..n + 1])) ==
      var d := Collect(Pairs(items[..n]));
      var parts := Split(items[n], ": ");
      if |parts| == 2 then Assign(d, Normalise(parts[0]), Normalise(parts[1])) else d
  {
    KeepSnoc(items, ParseItem, n);
    var pre := Pairs(items[..n]);
    var p := ParseItem(items[n]);
    if p.Some? {
      assert Pairs(items[..n + 1]) == pre + [p.value];
      assert (pre + [p.value])[..|pre|] == pre;
    } else {
      assert Pairs(items[..n + 1]) == pre;
    }
  }

  // ---------------------------------------------------------------- items

  /** An item contributes exactly when `": "` occurs in it exactly once; items with no
      separator or with several are skipped. */
  lemma ParseItemIff(item: string)
    ensures ParseItem(item).Some? <==> OccursOnce(item, ": ")
  {
    SplitTwoParts(item);
  }

  /** A contributing item's name and attribute are its two sides, normalised. */
  lemma ParseItemNormal(item: string)
    ensures ParseItem(item).Some? ==>
      && NormalForm(ParseItem(item).value.0) && NormalForm(ParseItem(item).value.1)
      && Normalise(ParseItem(item).value.0) == ParseItem(item).value.0
      && Normalise(ParseItem(item).value.1) == ParseItem(item).value.1
  {
    var parts := Split(item, ": ");
    if |parts| == 2 {
      NormaliseShape(parts[0]);
      NormaliseShape(parts[1]);
      NormaliseIdempotent(parts[0]);
      NormaliseIdempotent(parts[1]);
    }
  }

  /** The kept results are exactly the accepted parses. */
  lemma {:induction false} KeepSpec<T, U>(xs: seq<T>, parse: T -> Option<U>)
    ensures forall y :: y in Keep(xs, parse) ==> exists i :: 0 <= i < |xs| && parse(xs[i]) == Some(y)
    ensures forall i :: 0 <= i < |xs| && parse(xs[i]).Some? ==> parse(xs[i]).value in Keep(xs, parse)
  {
    if xs != [] {
      var front := xs[..|xs| - 1];
      var last := parse(xs[|xs| - 1]);
      var tail := if last.Some? then [last.value] else [];
      KeepSpec(front, parse);
      assert Keep(xs, parse) == Keep(front, parse) + tail;
      forall y | y in Keep(xs, parse) ensures exists i :: 0 <= i < |xs| && parse(xs[i]) == Some(y) {
        if y in Keep(front, parse) {
          var i :| 0 <= i < |front| && parse(front[i]) == Some(y);
          assert xs[i] == front[i];
        } else {
          assert y in tail;
          assert parse(xs[|xs| - 1]) == Some(y);
        }
      }
      forall i | 0 <= i < |xs| && parse(xs[i]).Some? ensures parse(xs[i]).value in Keep(xs, parse) {
        if i < |front| {
          assert front[i] == xs[i];
          assert parse(front[i]).value in Keep(front, parse);
        } else {
          assert parse(xs[i]).value in tail;
        }
      }
    }
  }

  /** The pairs are exactly the parses of the well-formed items, and there are no more
      pairs than items. */
  lemma PairsSpec(items: seq<string>)
    ensures |Pairs(items)| <= |items|
    ensures forall pr :: pr in Pairs(items) ==> exists i :: 0 <= i < |items| && ParseItem(items[i]) == Some(pr)
    ensures forall i :: 0 <= i < |items| && ParseItem(items[i]).Some? ==> ParseItem(items[i]).value in Pairs(items)
  {
    KeepSpec(items, ParseItem);
  }

  // ---------------------------------------------------------------- the dict

  ghost predicate Mentions(pairs: seq<(string, string)>, k: string) {
    exists i :: 0 <= i < |pairs| && pairs[i].0 == k
  }

  /** The position of the first pair named k. */
  ghost function FirstIndex(pairs: seq<(string, string)>, k: string): (i: nat)
    requires Mentions(pairs, k)
    ensures i < |pairs| && pairs[i].0 == k
    ensures forall j :: 0 <= j < i ==> pairs[j].0 != k
  {
    if pairs[0].0 == k then 0
    else
      assert Mentions(pairs[1..], k) by {
        var i :| 0 <= i < |pairs| && pairs[i].0 == k;
        assert pairs[1..][i - 1] == pairs[i];
      }
      1 + FirstIndex(pairs[1..], k)
  }

  lemma {:induction false} CollectValid(pairs: seq<(string, string)>)
    ensures ValidDict(Collect(pairs))
  {
    if pairs != [] {
      CollectValid(pairs[..|pairs| - 1]);
    }
  }

  /** A name is a key of the dict exactly when some pair carries it. */
  lemma {:induction false} CollectKeys(pairs: seq<(string, string)>)
    ensures forall k :: k in Collect(pairs).entries <==> Mentions(pairs, k)
  {
    if pairs != [] {
      var front := pairs[..|pairs| - 1];
      CollectKeys(front);
      assert forall i :: 0 <= i < |front| ==> front[i] == pairs[i];
      forall k | Mentions(pairs, k) && k != pairs[|pairs| - 1].0 ensures Mentions(front, k) {
        var i :| 0 <= i < |pairs| && pairs[i].0 == k;
        assert i < |front|;
      }
    }
  }

  /** There are no more keys than pairs. */
  lemma {:induction false} CollectSize(pairs: seq<(string, string)>)
    ensures |Collect(pairs).keys| <= |pairs|
  {
    if pairs != [] {
      CollectSize(pairs[..|pairs| - 1]);
    }
  }

  /** Last write wins: each key holds the attribute of the last pair with that name. */
  lemma {:induction false} CollectLastWins(pairs: seq<(string, string)>)
    ensures forall k :: k in Collect(pairs).entries ==>
      exists i :: 0 <= i < |pairs| && pairs[i] == (k, Collect(pairs).entries[k]) &&
        (forall j :: i < j < |pairs| ==> pairs[j].0 != k)
  {
    if pairs != [] {
      var front := pairs[..|pairs| - 1];
      var x := pairs[|pairs| - 1];
      CollectLastWins(front);
      var d := Collect(front);
      var d' := Collect(pairs);
      assert d' == Assign(d, x.0, x.1);
      forall k | k in d'.entries
        ensures exists i ::
          0 <= i < |pairs| && pairs[i] == (k, d'.entries[k]) && (forall j :: i < j < |pairs| ==> pairs[j].0 != k)
      {
        if k == x.0 {
          assert pairs[|pairs| - 1] == (k, d'.entries[k]);
        } else {
          var i :| 0 <= i < |front| && front[i] == (k, d.entries[k]) &&
            (forall j :: i < j < |front| ==> front[j].0 != k);
          assert pairs[i] == front[i];
          assert forall j :: i < j < |pairs| ==> pairs[j].0 != k by {
            forall j | i < j < |pairs| ensures pairs[j].0 != k {
              if j < |front| {
                assert pairs[j] == front[j];
              }
            }
          }
        }
      }
    }
  }

  lemma FirstIndexExtend(front: seq<(string, string)>, x: (string, string), k: string)
    requires Mentions(front, k)
    ensures Mentions(front + [x], k) && FirstIndex(front + [x], k) == FirstIndex(front, k)
  {
    var p := front + [x];
    var b := FirstIndex(front, k);
    assert p[b] == front[b];
    var a := FirstIndex(p, k);
    assert a <= b;
    assert p[a] == front[a];
  }

  lemma FirstIndexNew(front: seq<(string, string)>, x: (string, string))
    requires !Mentions(front, x.0)
    ensures Mentions(front + [x], x.0) && FirstIndex(front + [x], x.0) == |front|
  {
    var p := front + [x];
    assert p[|front|] == x;
    var a := FirstIndex(p, x.0);
  }

  /** `dict.keys()` order: every pair's name is a key, and the keys stand in the order in
      which their names first occur among the pairs. */
  lemma {:induction false} CollectOrder(pairs: seq<(string, string)>)
    ensures ValidDict(Collect(pairs))
    ensures forall k :: k in Collect(pairs).keys <==> Mentions(pairs, k)
    ensures forall a, b :: 0 <= a < b < |Collect(pairs).keys| ==>
      FirstIndex(pairs, Collect(pairs).keys[a]) < FirstIndex(pairs, Collect(pairs).keys[b])
  {
    CollectValid(pairs);
    CollectKeys(pairs);
    if pairs != [] {
      var front := pairs[..|pairs| - 1];
      var x := pairs[|pairs| - 1];
      assert pairs == front + [x];
      CollectOrder(front);
      var d := Collect(front);
      var d' := Collect(pairs);
      forall k | k in d.keys ensures FirstIndex(pairs, k) == FirstIndex(front, k) {
        FirstIndexExtend(front, x, k);
      }
      if x.0 in d.entries {
        assert d'.keys == d.keys;
      } else {
        assert d'.keys == d.keys + [x.0];
        FirstIndexNew(front, x);
        assert forall a :: 0 <= a < |d.keys| ==> d'.keys[a] == d.keys[a];
      }
    }
  }

  // ---------------------------------------------------------------- records

  /** Every key and every attribute of a record's dict is normalised: no whitespace,
      no upper case, and normalising it again changes nothing. There are no more keys
      than items in the ingredient text. */
  lemma FormatIngredientsNormal(ingredient: string)
    ensures ValidDict(FormatIngredients(ingredient))
    ensures |FormatIngredients(ingredient).keys| <= |Split(ingredient, ", ")|
    ensures forall k :: k in FormatIngredients(ingredient).entries ==>
      && NormalForm(k) && Normalise(k) == k
      && NormalForm(FormatIngredients(ingredient).entries[k])
      && Normalise(FormatIngredients(ingredient).entries[k]) == FormatIngredients(ingredient).entries[k]
  {
    var items := Split(ingredient, ", ");
    var pairs := Pairs(items);
    var d := Collect(pairs);
    CollectValid(pairs);
    CollectSize(pairs);
    PairsSpec(items);
    CollectLastWins(pairs);
    forall k | k in d.entries
      ensures NormalForm(k) && Normalise(k) == k && NormalForm(d.entries[k]) && Normalise(d.entries[k]) == d.entries[k]
    {
      var i :| 0 <= i < |pairs| && pairs[i] == (k, d.entries[k]) && (forall j :: i < j < |pairs| ==> pairs[j].0 != k);
      assert pairs[i] in pairs;
      var n :| 0 <= n < |items| && ParseItem(items[n]) == Some(pairs[i]);
      ParseItemNormal(items[n]);
    }
  }

  lemma NoSpaceInNormal(k: string)
    requires NormalForm(k)
    ensures ' ' !in k
  {
    assert IsSpace(' ');
  }

  /** `str_ingredients` is empty when no item was well-formed. */
  lemma StrIngredientsEmpty(row: RawRow)
    requires Pairs(Split(row.ingredient, ", ")) == []
    ensures BuildRecord(row).ingredients.keys == []
    ensures BuildRecord(row).strIngredients == ""
  {
  }

  /** `str_ingredients` is the keys joined with `", "`, and splitting it on `", "` gives
      back exactly the keys in dict order (no key contains `", "`). */
  lemma StrIngredientsSplit(row: RawRow)
    requires BuildRecord(row).ingredients.keys != []
    ensures Split(BuildRecord(row).strIngredients, ", ") == BuildRecord(row).ingredients.keys
  {
    var d := FormatIngredients(row.ingredient);
    FormatIngredientsNormal(row.ingredient);
    forall a | 0 <= a < |d.keys| ensures forall j :: !OccursAt(d.keys[a], ", ", j) {
      var k := d.keys[a];
      assert k in d.entries;
      NoSpaceInNormal(k);
      NoOccurrence(k, ", ", 1);
    }
    SplitJoinComma(d.keys);
  }

  /** An ingredient text that joins items with `", "`, none of which contains
      `", "` itself, gives the dict of exactly those items. */
  lemma FormatIngredientsOfItems(items: seq<string>)
    requires |items| >= 1
    requires forall k, j :: 0 <= k < |items| ==> !OccursAt(items[k], ", ", j)
    ensures FormatIngredients(Join(items, ", ")) == Collect(Pairs(items))
  {
    SplitJoinComma(items);
  }

  /** An item `name: attr` with no colon in either side splits into the two sides. */
  lemma ItemOf(name: string, attr: string)
    requires ':' !in name && ':' !in attr
    ensures Split(name + ": " + attr, ": ") == [name, attr]
  {
    var s := name + ": " + attr;
    assert s[|name|..|name| + 2] == ": ";
    forall j | 0 <= j < |name| ensures !OccursAt(s, ": ", j) {
      OccursChars(s, ": ", j);
      assert s[j] == name[j];
    }
    SplitAt(s, ": ", |name|);
    assert s[..|name|] == name;
    assert s[|name| + 2..] == attr;
    SplitAbsent(attr, ": ");
  }

  /** Such an item contributes its two sides, normalised. */
  lemma ParseItemOf(name: string, attr: string)
    requires ':' !in name && ':' !in attr
    ensures ParseItem(name + ": " + attr) == Some((Normalise(name), Normalise(attr)))
  {
    ItemOf(name, attr);
  }

  /** Two accepted elements are both kept, in order. */
  lemma KeepPair<T, U>(a: T, b: T, parse: T -> Option<U>, u: U, v: U)
    requires parse(a) == Some(u) && parse(b) == Some(v)
    ensures Keep([a, b], parse) == [u, v]
  {
    KeepSnoc([a, b], parse, 0);
    KeepSnoc([a, b], parse, 1);
    assert [a, b][..0] == [];
    assert [a, b][..2] == [a, b];
  }

  /** An item made of two words in normal form contributes exactly those words. */
  lemma ParseItemOfWords(name: string, attr: string)
    requires ':' !in name && ':' !in attr && NormalForm(name) && NormalForm(attr)
    ensures ParseItem(name + ": " + attr) == Some((name, attr))
  {
    ParseItemOf(name, attr);
    NormaliseOfWord(name);
    NormaliseOfWord(attr);
  }

  lemma ExamplePairs()
    ensures Pairs(["a: x", "b: y"]) == [("a", "x"), ("b", "y")]
  {
    assert "a: x" == "a" + ": " + "x";
    assert "b: y" == "b" + ": " + "y";
    ParseItemOfWords("a", "x");
    ParseItemOfWords("b", "y");
    KeepPair("a: x", "b: y", ParseItem, ("a", "x"), ("b", "y"));
  }

  lemma ExampleCollect()
    ensures Collect([("a", "x"), ("b", "y")]) == Dict(["a", "b"], map["a" := "x", "b" := "y"])
  {
    var ps := [("a", "x"), ("b", "y")];
    assert ps[..1] == [("a", "x")];
    assert [("a", "x")][..0] == [];
  }

  /** For instance, `"a: x, b: y"` gives the dict `{"a": "x", "b": "y"}`. */
  lemma FormatIngredientsExample()
    ensures FormatIngredients("a: x, b: y") == Dict(["a", "b"], map["a" := "x", "b" := "y"])
  {
    var items := ["a: x", "b: y"];
    assert Join(items, ", ") == "a: x, b: y";
    NoOccurrence(items[0], ", ", 0);
    NoOccurrence(items[1], ", ", 0);
    FormatIngredientsOfItems(items);
    ExamplePairs();
    ExampleCollect();
  }

  /** A word that has no whitespace and no upper-case letter is its own normal form. */
  lemma NormaliseOfWord(w: string)
    requires NormalForm(w)
    ensures Normalise(w) == w
  {
    LowerNormal(w);
    StripNoSpace(w);
    ReplaceSpaceRunsNoSpace(w);
  }

  /** A well-formed name that is empty after normalisation still makes a key, so an
      empty `str_ingredients` does not mean an empty dict. */
  lemma EmptyNameItem(attr: string)
    requires ':' !in attr
    ensures Split(": " + attr, ": ") == ["", attr]
  {
    var item := ": " + attr;
    assert item[..2] == ": ";
    assert Find(item, ": ") == Some(0);
    assert item[2..] == attr;
    SplitAbsent(attr, ": ");
  }

  lemma EmptyNameParse(attr: string)
    requires ':' !in attr
    ensures ParseItem(": " + attr).Some? && ParseItem(": " + attr).value.0 == ""
  {
    EmptyNameItem(attr);
    NormaliseShape("");
  }

  lemma CollectSingle(p: (string, string))
    ensures Collect([p]).keys == [p.0]
  {
    assert [p][..0] == [];
  }

  lemma PairsSingle(item: string)
    ensures ParseItem(item).Some? ==> Pairs([item]) == [ParseItem(item).value]
  {
    KeepSnoc([item], ParseItem, 0);
    assert [item][..1] == [item];
  }

  /** An ingredient text that is one well-formed item makes a dict with that item's name as its only key. */
  lemma SingleItem(ingredient: string)
    requires Split(ingredient, ", ") == [ingredient]
    requires ParseItem(ingredient).Some?
    ensures FormatIngredients(ingredient).keys == [ParseItem(ingredient).value.0]
  {
    PairsSingle(ingredient);
    CollectSingle(ParseItem(ingredient).value);
  }

  lemma EmptyNameSplit(attr: string)
    requires ':' !in attr && ',' !in attr
    ensures Split(": " + attr, ", ") == [": " + attr]
  {
    var item := ": " + attr;
    assert ',' !in item by {
      assert item == [':', ' '] + attr;
    }
    SplitAbsent(item, ", ");
  }

  /** A well-formed item whose name is empty still makes a key, the empty name:
      `": salt"` gives `{"": "salt"}`. */
  lemma EmptyNameStillKey(attr: string)
    requires ':' !in attr && ',' !in attr
    ensures FormatIngredients(": " + attr).keys == [""]
  {
    EmptyNameSplit(attr);
    EmptyNameParse(attr);
    SingleItem(": " + attr);
  }

  /** So an empty `str_ingredients` does not mean an empty dict. */
  lemma EmptyNameEmptyStr(attr: string)
    requires ':' !in attr && ',' !in attr
    ensures BuildRecord(RawRow("", "", ": " + attr, "", "")).ingredients.keys != []
    ensures BuildRecord(RawRow("", "", ": " + attr, "", "")).strIngredients == ""
  {
    EmptyNameStillKey(attr);
    assert Join([""], ", ") == "";
  }
}
