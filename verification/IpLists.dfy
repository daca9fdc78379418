/** Lists of addresses pasted as one text (front/src/utils/common.ts). */
module IpLists {
  import opened Collections
  import opened Text
  import opened IpText

  /** Line break, and semicolon, comma and bar in their ASCII and full-width forms. */
  predicate IsSeparator(c: char) {
    c == '\n' || c == ';' || c == '\U{FF1B}' || c == ',' || c == '\U{FF0C}' || c == '|'
  }

  function Pieces(raw: string): (parts: seq<string>)
    ensures |parts| >= 1
  {
    SplitBy(raw, IsSeparator)
  }

  /** A piece without the white space around it, if anything is left. */
  function Kept(part: string): seq<string> {
    var ip := Trim(part);
    if |ip| > 0 then [ip] else []
  }

  function Listed(raw: string): seq<string> {
    Collect(Pieces(Trim(raw)), Kept)
  }

  method SplitIP(raw: string) returns (list: seq<string>)
    ensures list == Listed(raw)
  {
    list := [];
    var parts := Pieces(Trim(raw));
    for i := 0 to |parts|
      invariant list == Collect(parts[..i], Kept)
    {
      CollectStep(parts[..i], parts[i], Kept);
      assert parts[..i + 1] == parts[..i] + [parts[i]];
      var ip := Trim(parts[i]);
      if |ip| > 0 {
        list := list + [ip];
      }
    }
    assert parts[..|parts|] == parts;
  }

  // ----- what the list holds -----

  /** An item as it can stand in a list. */
  predicate Clean(item: string) {
    item != "" && !IsSpace(item[0]) && !IsSpace(item[|item| - 1]) && Without(item, IsSeparator)
  }

  lemma {:induction false} TrimmedAreClean(parts: seq<string>)
    requires forall i | 0 <= i < |parts| :: Without(parts[i], IsSeparator)
    ensures forall item | item in Collect(parts, Kept) :: Clean(item)
  {
    if parts != [] {
      var last := parts[|parts| - 1];
      TrimmedAreClean(parts[..|parts| - 1]);
      TrimKeeps(last, IsSeparator);
    }
  }

  lemma ListedAreClean(raw: string)
    ensures forall item | item in Listed(raw) :: Clean(item)
  {
    PiecesAreWithout(Trim(raw), IsSeparator);
    TrimmedAreClean(Pieces(Trim(raw)));
  }

  lemma {:induction false} CleanAreKept(items: seq<string>)
    requires forall item | item in items :: Clean(item)
    ensures Collect(items, Kept) == items
  {
    if items != [] {
      var init, last := items[..|items| - 1], items[|items| - 1];
      assert last in items && init + [last] == items;
      CleanAreKept(init);
    }
  }

  /** Any list of clean items, written with any one of the separators, is read back. */
  lemma JoinedItemsAreListed(items: seq<string>, sep: char)
    requires |items| > 0 && IsSeparator(sep) && forall item | item in items :: Clean(item)
    ensures Listed(Join(items, sep)) == items
  {
    SplitJoinBy(items, sep);
    OuterTrimIsRedundant(Join(items, sep));
    CleanAreKept(items);
  }

  lemma {:induction false} SplitJoinBy(items: seq<string>, sep: char)
    requires |items| > 0 && IsSeparator(sep) && forall item | item in items :: Clean(item)
    ensures Pieces(Join(items, sep)) == items
  {
    var head := items[0];
    assert head in items;
    if |items| == 1 {
      SplitWithout(head, IsSeparator);
    } else {
      assert forall item | item in items[1..] :: item in items;
      SplitJoinBy(items[1..], sep);
      SplitAtFirst(head, sep, Join(items[1..], sep), IsSeparator);
    }
  }

  /** Text that is clean whatever the separators are taken to be: no line break, semicolon, comma or bar. */
  predicate Solid(item: string) {
    && item != "" && NoSpace(item)
    && forall c | c in item :: c !in ['\n', ';', '\U{FF1B}', ',', '\U{FF0C}', '|']
  }

  /** Two solid texts are two items exactly when what stands between them is one of the six separators; any other
      character makes one item of them. */
  lemma TwoItemsIffSeparated(a: string, c: char, b: string)
    requires Solid(a) && Solid(b)
    ensures Listed(a + [c] + b) == if c in ['\n', ';', '\U{FF1B}', ',', '\U{FF0C}', '|'] then [a, b] else [a + [c] + b]
  {
    SolidIsClean(a);
    SolidIsClean(b);
    OuterTrimIsRedundant(a + [c] + b);
    if IsSeparator(c) {
      SeparatedItems(a, c, b);
    } else {
      UnseparatedItems(a, c, b);
    }
  }

  lemma SeparatedItems(a: string, c: char, b: string)
    requires Clean(a) && Clean(b) && IsSeparator(c)
    ensures Collect(Pieces(a + [c] + b), Kept) == [a, b]
  {
    hide Kept, Trim;
    SplitAtFirst(a, c, b, IsSeparator);
    SplitWithout(b, IsSeparator);
    assert [a] + [b] == [a, b];
    CleanAreKept([a, b]);
  }

  lemma UnseparatedItems(a: string, c: char, b: string)
    requires Clean(a) && Clean(b) && !IsSeparator(c)
    ensures Collect(Pieces(a + [c] + b), Kept) == [a + [c] + b]
  {
    hide Kept, Trim, IsSpace;
    var text := a + [c] + b;
    assert text[0] == a[0] && text[|text| - 1] == b[|b| - 1];
    SplitWithout(text, IsSeparator);
    CleanAreKept([text]);
  }

  lemma SolidIsClean(item: string)
    requires Solid(item)
    ensures Clean(item)
  {
    var first, last := item[0], item[|item| - 1];
    assert first in item && last in item;
  }

  // ----- trimming the whole text first makes no difference -----

  lemma SpaceInFront(x: char, s: string)
    requires IsSpace(x)
    ensures Collect(Pieces([x] + s), Kept) == Collect(Pieces(s), Kept)
  {
    SplitHead(x, s, IsSeparator);
    var parts := Pieces(s);
    if IsSeparator(x) {
      CollectFront("", parts, Kept);
    } else {
      var first, rest := parts[0], parts[1..];
      assert parts == [first] + rest;
      CollectFront(first, rest, Kept);
      CollectFront([x] + first, rest, Kept);
      assert ([x] + first)[1..] == first;
    }
  }

  /** The pieces after one more character at the end. */
  function Extended(parts: seq<string>, x: char): seq<string>
    requires |parts| >= 1
  {
    if IsSeparator(x) then parts + [""] else parts[..|parts| - 1] + [parts[|parts| - 1] + [x]]
  }

  lemma {:induction false} SplitLast(s: string, x: char)
    ensures Pieces(s + [x]) == Extended(Pieces(s), x)
  {
    if s == "" {
      assert s + [x] == [x] + "";
      SplitHead(x, "", IsSeparator);
    } else {
      var c, rest := s[0], s[1..];
      SplitLast(rest, x);
      SplitHead(c, rest, IsSeparator);
      SplitHead(c, rest + [x], IsSeparator);
      assert s == [c] + rest && s + [x] == [c] + (rest + [x]);
      if IsSeparator(c) {
        ExtendedFront(Pieces(rest), x);
      } else {
        ExtendedHead(c, Pieces(rest), x);
      }
    }
  }

  lemma ExtendedFront(parts: seq<string>, x: char)
    requires |parts| >= 1
    ensures [""] + Extended(parts, x) == Extended([""] + parts, x)
  {
  }

  lemma ExtendedHead(c: char, parts: seq<string>, x: char)
    requires |parts| >= 1
    ensures var more := Extended(parts, x);
            [[c] + more[0]] + more[1..] == Extended([[c] + parts[0]] + parts[1..], x)
  {
    var more, grown := Extended(parts, x), Extended([[c] + parts[0]] + parts[1..], x);
    if |parts| == 1 && !IsSeparator(x) {
      assert [c] + (parts[0] + [x]) == [c] + parts[0] + [x];
    }
    assert grown[0] == [c] + more[0] && grown[1..] == more[1..];
  }

  lemma {:induction false} TrimDropsLast(s: string, x: char)
    requires IsSpace(x)
    ensures Trim(s + [x]) == Trim(s)
  {
    if s == "" {
      assert s + [x] == [x];
      assert [x][1..] == "";
    } else if IsSpace(s[0]) {
      assert (s + [x])[1..] == s[1..] + [x];
      TrimDropsLast(s[1..], x);
    } else {
      assert (s + [x])[..|s|] == s;
    }
  }

  lemma SpaceAtEnd(s: string, x: char)
    requires IsSpace(x)
    ensures Collect(Pieces(s + [x]), Kept) == Collect(Pieces(s), Kept)
  {
    SplitLast(s, x);
    var parts := Pieces(s);
    if IsSeparator(x) {
      CollectStep(parts, "", Kept);
    } else {
      var init, last := parts[..|parts| - 1], parts[|parts| - 1];
      TrimDropsLast(last, x);
      CollectStep(init, last + [x], Kept);
      CollectStep(init, last, Kept);
      assert init + [last] == parts;
    }
  }

  lemma {:induction false} TrimStartIsRedundant(s: string)
    ensures Collect(Pieces(TrimStart(s)), Kept) == Collect(Pieces(s), Kept)
  {
    if s != "" && IsSpace(s[0]) {
      var x, rest := s[0], s[1..];
      TrimStartIsRedundant(rest);
      SpaceInFront(x, rest);
      assert [x] + rest == s;
    }
  }

  lemma {:induction false} TrimEndIsRedundant(s: string)
    ensures Collect(Pieces(TrimEnd(s)), Kept) == Collect(Pieces(s), Kept)
  {
    if s != "" && IsSpace(s[|s| - 1]) {
      var rest, x := s[..|s| - 1], s[|s| - 1];
      TrimEndIsRedundant(rest);
      SpaceAtEnd(rest, x);
      assert rest + [x] == s;
    }
  }

  /** White space around the whole text never shows, even when it is a separator itself. */
  lemma OuterTrimIsRedundant(raw: string)
    ensures Listed(raw) == Collect(Pieces(raw), Kept)
  {
    TrimStartIsRedundant(raw);
    TrimEndIsRedundant(TrimStart(raw));
  }

  // ----- by version -----

  function Only6(lib: Library): string -> bool {
    s => !lib.isIP4(s) && lib.isIP6(s)
  }

  /** The listed addresses by version, each in text order; what is no address is dropped. */
  method ParseIP(text: string, lib: Library) returns (v4: seq<string>, v6: seq<string>)
    ensures v4 == Filter(Listed(text), lib.isIP4)
    ensures v6 == Filter(Listed(text), Only6(lib))
  {
    v4, v6 := [], [];
    var list := SplitIP(text);
    for i := 0 to |list|
      invariant v4 == Filter(list[..i], lib.isIP4)
      invariant v6 == Filter(list[..i], Only6(lib))
    {
      FilterStep(list, i, lib.isIP4);
      FilterStep(list, i, Only6(lib));
      if lib.isIP4(list[i]) {
        v4 := v4 + [list[i]];
      } else if lib.isIP6(list[i]) {
        v6 := v6 + [list[i]];
      }
    }
    assert list[..|list|] == list;
  }

  /** Items stay in the order of the text, and so do the addresses of each version: one more separator and item add
      behind. */
  lemma ItemsInTextOrder(text: string, sep: char, item: string, version: string -> bool)
    requires IsSeparator(sep) && Clean(item)
    ensures Listed(text + [sep] + item) == Listed(text) + [item]
    ensures Filter(Listed(text + [sep] + item), version) ==
            Filter(Listed(text), version) + if version(item) then [item] else []
  {
    hide Kept, Trim;
    var more := text + [sep] + item;
    OuterTrimIsRedundant(more);
    OuterTrimIsRedundant(text);
    SplitAtLast(text, sep, item);
    CollectStep(Pieces(text), item, Kept);
    CleanIsKept(item);
    FilterKeepsOrder(Listed(text), [item], version);
    FilterStep([item], 0, version);
    assert [item][..1] == [item];
  }

  lemma CleanIsKept(item: string)
    requires Clean(item)
    ensures Kept(item) == [item]
  {
  }

  lemma {:induction false} SplitAtLast(text: string, sep: char, item: string)
    requires IsSeparator(sep) && Without(item, IsSeparator)
    ensures Pieces(text + [sep] + item) == Pieces(text) + [item]
  {
    if text == "" {
      assert text + [sep] + item == "" + [sep] + item;
      SplitAtFirst("", sep, item, IsSeparator);
      SplitWithout(item, IsSeparator);
    } else {
      hide SplitBy;
      var c, rest := text[0], text[1..];
      SplitAtLast(rest, sep, item);
      SplitHead(c, rest, IsSeparator);
      SplitHead(c, rest + [sep] + item, IsSeparator);
      assert [c] + rest == text && text + [sep] + item == [c] + (rest + [sep] + item);
      FrontAndBack(c, Pieces(rest), item);
    }
  }

  lemma FrontAndBack(c: char, parts: seq<string>, item: string)
    requires |parts| >= 1
    ensures [""] + (parts + [item]) == [""] + parts + [item]
    ensures [[c] + (parts + [item])[0]] + (parts + [item])[1..] == [[c] + parts[0]] + parts[1..] + [item]
  {
  }

  /** No address is lost and none is listed twice as often as in the text. */
  lemma {:induction false} VersionsPartition(list: seq<string>, lib: Library)
    ensures multiset(Filter(list, lib.isIP4)) + multiset(Filter(list, Only6(lib)))
            == multiset(Filter(list, s => lib.IsSingleIP(s)))
  {
    if list != [] {
      VersionsPartition(list[..|list| - 1], lib);
    }
  }
}
