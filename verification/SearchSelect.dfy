/** Search boxes: grouping typed values by field, and filtering a local list with them (front/src/utils/search.ts). */
module SearchSelect {
  import opened Collections

  datatype Entry = Entry(id: string, values: seq<string>)

  /** What the options make of a value typed for a field; the value itself when no formatter applies. */
  type Formatter = (string, string) -> string

  function FormatAll(values: seq<string>, id: string, format: Formatter): (r: seq<string>)
    ensures |r| == |values| && forall i | 0 <= i < |values| :: r[i] == format(values[i], id)
  {
    seq(|values|, i requires 0 <= i < |values| => format(values[i], id))
  }

  /** Every value typed for a field, in the order of typing, over all entries with its id. */
  function ValuesFor(entries: seq<Entry>, id: string, format: Formatter): seq<string> {
    if entries == [] then []
    else
      var last := entries[|entries| - 1];
      ValuesFor(entries[..|entries| - 1], id, format) +
      (if last.id == id then FormatAll(last.values, id, format) else [])
  }

  /** An entry of the search box asks for `v` in field `id`. */
  ghost predicate Asked(entries: seq<Entry>, id: string, v: string, format: Formatter) {
    exists i, j | 0 <= i < |entries| && 0 <= j < |entries[i].values| ::
      entries[i].id == id && v == format(entries[i].values[j], id)
  }

  ghost predicate Mentioned(entries: seq<Entry>, id: string) {
    exists i | 0 <= i < |entries| :: entries[i].id == id
  }

  /** The grouped condition: one list of values per id. */
  method GetSimpleConditionBySearchSelect(searchValue: seq<Entry>, format: Formatter)
    returns (condition: map<string, seq<string>>)
    ensures forall id :: id in condition <==> Mentioned(searchValue, id)
    ensures forall id | id in condition :: condition[id] == ValuesFor(searchValue, id, format)
  {
    condition := map[];
    for i := 0 to |searchValue|
      invariant forall id :: id in condition <==> Mentioned(searchValue[..i], id)
      invariant forall id | id in condition :: condition[id] == ValuesFor(searchValue[..i], id, format)
    {
      var Entry(id, values) := searchValue[i];
      var formattedValues := FormatAll(values, id, format);
      forall other
        ensures Mentioned(searchValue[..i + 1], other) <==> Mentioned(searchValue[..i], other) || other == id
      {
        MentionedStep(searchValue, i, other);
      }
      if id !in condition {
        NothingForOthers(searchValue[..i], id, format);
      }
      assert searchValue[..i + 1][..i] == searchValue[..i];
      condition := condition[id := (if id in condition then condition[id] else []) + formattedValues];
    }
    assert searchValue[..|searchValue|] == searchValue;
  }

  lemma MentionedStep(entries: seq<Entry>, i: nat, id: string)
    requires i < |entries|
    ensures Mentioned(entries[..i + 1], id) <==> Mentioned(entries[..i], id) || entries[i].id == id
  {
    assert entries[..i + 1] == entries[..i] + [entries[i]];
    assert entries[i].id == id ==> entries[..i + 1][i].id == id;
    assert forall k | 0 <= k < i :: entries[..i + 1][k] == entries[..i][k];
  }

  lemma {:induction false} NothingForOthers(entries: seq<Entry>, id: string, format: Formatter)
    requires !Mentioned(entries, id)
    ensures ValuesFor(entries, id, format) == []
  {
    if entries != [] {
      var init, last := entries[..|entries| - 1], entries[|entries| - 1];
      assert entries[|entries| - 1].id != id;
      assert forall k | 0 <= k < |init| :: init[k] == entries[k];
      NothingForOthers(init, id, format);
    }
  }

  /** A group holds exactly the values asked for in its field. */
  lemma {:induction false} GroupHoldsTheAsked(entries: seq<Entry>, id: string, v: string, format: Formatter)
    ensures v in ValuesFor(entries, id, format) <==> Asked(entries, id, v, format)
  {
    if entries != [] {
      var init, last := entries[..|entries| - 1], entries[|entries| - 1];
      GroupHoldsTheAsked(init, id, v, format);
      AskedStep(init, last, id, v, format);
      assert entries == init + [last];
      var added := FormatAll(last.values, id, format);
      if last.id == id {
        assert v in added <==> exists j | 0 <= j < |last.values| :: v == format(last.values[j], id);
      }
    }
  }

  lemma AskedStep(init: seq<Entry>, last: Entry, id: string, v: string, format: Formatter)
    ensures Asked(init + [last], id, v, format) <==>
            Asked(init, id, v, format)
            || (last.id == id && exists j | 0 <= j < |last.values| :: v == format(last.values[j], id))
  {
    var all := init + [last];
    assert all[|init|] == last && forall i | 0 <= i < |init| :: all[i] == init[i];
  }

  /** The values of a field stand in the order of typing: those of earlier entries first. */
  lemma {:induction false} ValuesInOrder(a: seq<Entry>, b: seq<Entry>, id: string, format: Formatter)
    ensures ValuesFor(a + b, id, format) == ValuesFor(a, id, format) + ValuesFor(b, id, format)
  {
    if b == [] {
      assert a + b == a;
    } else {
      var init, last := b[..|b| - 1], b[|b| - 1];
      hide FormatAll;
      ValuesInOrder(a, init, id, format);
      assert (a + b)[..|a + b| - 1] == a + init && (a + b)[|a + b| - 1] == last;
      Regrouped(ValuesFor(a, id, format), ValuesFor(init, id, format),
                if last.id == id then FormatAll(last.values, id, format) else []);
    }
  }

  lemma Regrouped(x: seq<string>, y: seq<string>, z: seq<string>)
    ensures (x + y) + z == x + (y + z)
  {
  }

  /** Those of one entry are in its own order, each formatted. */
  lemma ValuesOfOneEntry(e: Entry, format: Formatter)
    ensures |ValuesFor([e], e.id, format)| == |e.values|
    ensures forall i | 0 <= i < |e.values| :: ValuesFor([e], e.id, format)[i] == format(e.values[i], e.id)
    ensures forall id | id != e.id :: ValuesFor([e], id, format) == []
  {
    assert [e][..0] == [];
  }

  // ----- the local filter -----

  predicate Includes(text: string, part: string) {
    exists i | 0 <= i <= |text| :: part <= text[i..]
  }

  /** A text includes a part exactly when it is the part with something, or nothing, around it. */
  lemma IncludesIsSubstring(text: string, part: string)
    ensures Includes(text, part) <==> exists front, back :: text == front + part + back
  {
    if i :| 0 <= i <= |text| && part <= text[i..] {
      assert text == text[..i] + part + text[i + |part|..];
    }
    if front, back :| text == front + part + back {
      assert text[|front|..] == part + back;
    }
  }

  /** An item of the local list: the text of each field that has a truthy value. */
  type Item = string -> Option<string>

  /** The fields' own checkers, for the fields that have one. */
  type Checkers = string -> Option<(seq<string>, Item) -> bool>

  /** The rule for one group: the field's own checker if it has one, else some value occurs in the field's text. */
  predicate GroupAccepts(id: string, values: seq<string>, item: Item, checker: Checkers) {
    if checker(id).Some? then checker(id).value(values, item)
    else item(id).Some? && exists i | 0 <= i < |values| :: Includes(item(id).value, values[i])
  }

  /** The filter function made from the search value, applied to one item. */
  method LocalFilter(searchValue: seq<Entry>, format: Formatter, checker: Checkers, item: Item)
    returns (accepted: bool)
    ensures accepted <==> forall i | 0 <= i < |searchValue| ::
              GroupAccepts(searchValue[i].id, ValuesFor(searchValue, searchValue[i].id, format), item, checker)
  {
    var condition := GetSimpleConditionBySearchSelect(searchValue, format);
    accepted := forall id | id in condition.Keys :: GroupAccepts(id, condition[id], item, checker);
    forall i | 0 <= i < |searchValue| ensures searchValue[i].id in condition {
      assert Mentioned(searchValue, searchValue[i].id);
    }
  }

  ghost predicate FilterAccepts(entries: seq<Entry>, format: Formatter, checker: Checkers, item: Item) {
    forall i | 0 <= i < |entries| ::
      GroupAccepts(entries[i].id, ValuesFor(entries, entries[i].id, format), item, checker)
  }

  /** What a mentioned field demands: the consent of its own checker to all its values, or, without one, text in which
      some value asked for occurs. */
  ghost predicate Satisfied(entries: seq<Entry>, id: string, format: Formatter, checker: Checkers, item: Item) {
    if checker(id).Some? then checker(id).value(ValuesFor(entries, id, format), item)
    else item(id).Some? && exists v :: Asked(entries, id, v, format) && Includes(item(id).value, v)
  }

  lemma GroupAcceptsTheAsked(entries: seq<Entry>, id: string, format: Formatter, checker: Checkers, item: Item)
    ensures GroupAccepts(id, ValuesFor(entries, id, format), item, checker) <==>
              Satisfied(entries, id, format, checker, item)
  {
    var values := ValuesFor(entries, id, format);
    if checker(id).None? && item(id).Some? {
      if i :| 0 <= i < |values| && Includes(item(id).value, values[i]) {
        GroupHoldsTheAsked(entries, id, values[i], format);
      }
      if v :| Asked(entries, id, v, format) && Includes(item(id).value, v) {
        GroupHoldsTheAsked(entries, id, v, format);
        var i :| 0 <= i < |values| && values[i] == v;
      }
    }
  }

  /** Values of a field are alternatives and fields are joint requirements, over all entries of a field: an item passes
      exactly when every mentioned field is satisfied. */
  lemma FilterMeans(entries: seq<Entry>, format: Formatter, checker: Checkers, item: Item)
    ensures FilterAccepts(entries, format, checker, item)
            <==> forall id | Mentioned(entries, id) :: Satisfied(entries, id, format, checker, item)
  {
    forall i | 0 <= i < |entries| ensures Mentioned(entries, entries[i].id) {
    }
    forall id {
      GroupAcceptsTheAsked(entries, id, format, checker, item);
    }
  }

  /** Splitting, repeating and reordering entries makes no difference, as long as the same values are asked for, and
      every checker is shown the same list. */
  lemma EntryOrderIsIrrelevant(a: seq<Entry>, b: seq<Entry>, format: Formatter, checker: Checkers, item: Item)
    requires forall id :: Mentioned(a, id) <==> Mentioned(b, id)
    requires forall id, v | checker(id).None? :: Asked(a, id, v, format) <==> Asked(b, id, v, format)
    requires forall id | checker(id).Some? :: ValuesFor(a, id, format) == ValuesFor(b, id, format)
    ensures FilterAccepts(a, format, checker, item) <==> FilterAccepts(b, format, checker, item)
  {
    FilterMeans(a, format, checker, item);
    FilterMeans(b, format, checker, item);
    forall id ensures Satisfied(a, id, format, checker, item) <==> Satisfied(b, id, format, checker, item) {
    }
  }
}
