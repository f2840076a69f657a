/** The saved-colour library: the list `colors` of saved records that the
    `Library` class keeps in memory, with save, delete, clear-all, the import
    merge and the search filter used when the list is drawn. */
module ColorLibrary {
  import opened JsString
  import Color

  /** A saved record: its id, hex string, channels, alpha, display name and
      creation time (milliseconds). */
  datatype SavedColor = SavedColor(
    id: string, hex: string, r: int, g: int, b: int, a: real,
    name: string, createdAt: int)

  /** The picker's current colour, as `save` reads it. */
  datatype Current = Current(hex: string, r: int, g: int, b: int, a: real)

  /** The hex strings occurring in a list of records. */
  function HexSet(s: seq<SavedColor>): set<string>
  {
    set c | c in s :: c.hex
  }

  /** No two records of the list share a hex string. */
  predicate UniqueHexes(s: seq<SavedColor>)
  {
    forall i, j :: 0 <= i < j < |s| ==> s[i].hex != s[j].hex
  }

  lemma HexSetConcat(a: seq<SavedColor>, b: seq<SavedColor>)
    ensures HexSet(a + b) == HexSet(a) + HexSet(b)
  {
    forall h | h in HexSet(a) + HexSet(b) ensures h in HexSet(a + b) {
      var c :| c in a + b && c.hex == h by {
        if h in HexSet(a) {
          var c :| c in a && c.hex == h;
          assert c in a + b;
        } else {
          var c :| c in b && c.hex == h;
          assert c in a + b;
        }
      }
    }
  }

  // ---------------------------------------------------------------------
  // Array.prototype.filter

  /** `s.filter(keep)`: the elements of `s` that `keep` accepts, in order. */
  function Filter<T(!new)>(s: seq<T>, keep: T -> bool): (r: seq<T>)
    ensures |r| <= |s|
    ensures forall x :: x in r <==> x in s && keep(x)
  {
    if s == [] then []
    else (if keep(s[0]) then [s[0]] else []) + Filter(s[1..], keep)
  }

  /** Filtering keeps each accepted element as often as it occurs and drops
      every rejected one. */
  lemma {:induction false} FilterCounts<T(!new)>(s: seq<T>, keep: T -> bool)
    ensures forall x :: multiset(Filter(s, keep))[x] == if keep(x) then multiset(s)[x] else 0
  {
    if s != [] {
      FilterCounts(s[1..], keep);
      assert s == [s[0]] + s[1..];
    }
  }

  /** Filtering distributes over concatenation, so it keeps the relative
      order of the surviving elements. */
  lemma {:induction false} FilterConcat<T(!new)>(a: seq<T>, b: seq<T>, keep: T -> bool)
    ensures Filter(a + b, keep) == Filter(a, keep) + Filter(b, keep)
  {
    if a == [] {
      assert a + b == b;
    } else {
      assert (a + b)[0] == a[0];
      assert (a + b)[1..] == a[1..] + b;
      FilterConcat(a[1..], b, keep);
      var head := if keep(a[0]) then [a[0]] else [];
      calc {
        Filter(a + b, keep);
        head + Filter(a[1..] + b, keep);
        head + (Filter(a[1..], keep) + Filter(b, keep));
        (head + Filter(a[1..], keep)) + Filter(b, keep);
        Filter(a, keep) + Filter(b, keep);
      }
    }
  }

  /** A filter that accepts every element returns the list unchanged. */
  lemma {:induction false} FilterAll<T(!new)>(s: seq<T>, keep: T -> bool)
    requires forall x :: x in s ==> keep(x)
    ensures Filter(s, keep) == s
  {
    if s != [] {
      FilterAll(s[1..], keep);
    }
  }

  /** Filtering keeps hex strings unique. */
  lemma {:induction false} FilterKeepsUnique(s: seq<SavedColor>, keep: SavedColor -> bool)
    requires UniqueHexes(s)
    ensures UniqueHexes(Filter(s, keep))
  {
    if s != [] {
      FilterKeepsUnique(s[1..], keep);
      var rest := Filter(s[1..], keep);
      assert forall x :: x in rest ==> x in s[1..];
      forall k | 0 <= k < |rest| ensures rest[k].hex != s[0].hex {
        assert rest[k] in rest;
        var j :| 0 <= j < |s[1..]| && s[1..][j] == rest[k];
        assert s[1 + j] == rest[k];
      }
    }
  }

  // ---------------------------------------------------------------------
  // The spec functions of delete, the search filter and import

  /** The test `delete(id)` filters by: the record has another id. */
  function OtherId(id: string): SavedColor -> bool
  {
    (c: SavedColor) => c.id != id
  }

  /** The test of the search filter for a lower-cased query `q`: the
      lower-cased hex or the lower-cased name contains `q`. */
  function Matching(q: string): SavedColor -> bool
  {
    (c: SavedColor) => Includes(ToLower(c.hex), q) || Includes(ToLower(c.name), q)
  }

  /** The records the library shows for the search box text `filter`. */
  function Search(s: seq<SavedColor>, filter: string): (r: seq<SavedColor>)
    ensures forall c :: c in r <==>
      c in s && (Includes(ToLower(c.hex), ToLower(filter)) || Includes(ToLower(c.name), ToLower(filter)))
  {
    Filter(s, Matching(ToLower(filter)))
  }

  /** An empty search shows every record. */
  lemma SearchEmpty(s: seq<SavedColor>)
    ensures Search(s, "") == s
  {
    forall c | c in s ensures Matching("")(c) {
      IncludesEmpty(ToLower(c.hex));
    }
    FilterAll(s, Matching(""));
  }

  /** The search ignores the case of the query. */
  lemma SearchIgnoresCase(s: seq<SavedColor>, filter: string)
    ensures Search(s, ToUpper(filter)) == Search(s, filter)
    ensures Search(s, ToLower(filter)) == Search(s, filter)
  {
    LowerForgetsCase(filter);
  }

  /** The records an import appends when the library already holds the hex
      strings `seen`: each record of `data` whose hex is neither in `seen`
      nor on an earlier record of `data`, in file order. */
  function Fresh(seen: set<string>, data: seq<SavedColor>): (r: seq<SavedColor>)
    ensures |r| <= |data|
    decreases |data|
  {
    if data == [] then []
    else if data[0].hex in seen then Fresh(seen, data[1..])
    else [data[0]] + Fresh(seen + {data[0].hex}, data[1..])
  }

  /** The appended records come from the file, carry hex strings not yet
      held, pairwise distinct, and together carry every new hex of the
      file. */
  lemma {:induction false} FreshShape(seen: set<string>, data: seq<SavedColor>)
    ensures forall c :: c in Fresh(seen, data) ==> c in data && c.hex !in seen
    ensures UniqueHexes(Fresh(seen, data))
    ensures HexSet(Fresh(seen, data)) == HexSet(data) - seen
    decreases |data|
  {
    if data != [] {
      var d := data[0];
      var tail := data[1..];
      assert data == [d] + tail;
      HexSetConcat([d], tail);
      if d.hex in seen {
        FreshShape(seen, tail);
      } else {
        var rest := Fresh(seen + {d.hex}, tail);
        FreshShape(seen + {d.hex}, tail);
        HexSetConcat([d], rest);
        assert Fresh(seen, data) == [d] + rest;
        forall k | 0 <= k < |rest| ensures rest[k].hex != d.hex {
          assert rest[k] in rest;
        }
      }
    }
  }

  /** The first record of the file carrying a hex not yet held is appended. */
  lemma {:induction false} FreshKeepsFirst(seen: set<string>, data: seq<SavedColor>, i: nat)
    requires i < |data| && data[i].hex !in seen
    requires forall j :: 0 <= j < i ==> data[j].hex != data[i].hex
    ensures data[i] in Fresh(seen, data)
    decreases i
  {
    if i > 0 {
      var seen' := if data[0].hex in seen then seen else seen + {data[0].hex};
      FreshKeepsFirst(seen', data[1..], i - 1);
    }
  }

  /** Importing `a + b` appends what importing `a` appends, followed by
      what importing `b` appends once the hex strings of `a` are held. */
  lemma {:induction false} FreshConcat(seen: set<string>, a: seq<SavedColor>, b: seq<SavedColor>)
    ensures Fresh(seen, a + b) == Fresh(seen, a) + Fresh(seen + HexSet(a), b)
    decreases |a|
  {
    if a == [] {
      assert a + b == b;
      assert seen + HexSet(a) == seen;
    } else {
      var d := a[0];
      assert (a + b)[1..] == a[1..] + b;
      assert a == [d] + a[1..];
      HexSetConcat([d], a[1..]);
      assert HexSet([d]) == {d.hex};
      if d.hex in seen {
        FreshConcat(seen, a[1..], b);
        assert seen + HexSet(a) == seen + HexSet(a[1..]);
      } else {
        FreshConcat(seen + {d.hex}, a[1..], b);
        assert seen + {d.hex} + HexSet(a[1..]) == seen + HexSet(a);
      }
    }
  }

  /** A file whose hex strings are all held already appends nothing. */
  lemma FreshOfHeld(seen: set<string>, data: seq<SavedColor>)
    requires HexSet(data) <= seen
    ensures Fresh(seen, data) == []
  {
    FreshShape(seen, data);
  }

  /** Merging a file into a list without repeated hex strings leaves none
      repeated. */
  lemma ImportKeepsUnique(colors: seq<SavedColor>, data: seq<SavedColor>)
    requires UniqueHexes(colors)
    ensures UniqueHexes(colors + Fresh(HexSet(colors), data))
  {
    var f := Fresh(HexSet(colors), data);
    FreshShape(HexSet(colors), data);
    var s := colors + f;
    forall i, j | 0 <= i < j < |s| ensures s[i].hex != s[j].hex {
      if j >= |colors| && i < |colors| {
        assert s[j] == f[j - |colors|];
        assert s[j] in f;
        assert s[i] in colors;
      } else if i >= |colors| {
        assert s[i] == f[i - |colors|] && s[j] == f[j - |colors|];
      }
    }
  }

  /** Importing the same file a second time appends nothing. */
  lemma ImportTwice(colors: seq<SavedColor>, data: seq<SavedColor>)
    ensures var once := colors + Fresh(HexSet(colors), data);
      Fresh(HexSet(once), data) == []
  {
    var f := Fresh(HexSet(colors), data);
    FreshShape(HexSet(colors), data);
    HexSetConcat(colors, f);
    FreshOfHeld(HexSet(colors + f), data);
  }

  /** The name `save` gives a record: the trimmed name input, or the
      colour's table name when that is empty. */
  function SavedName(nameInput: string, hex: string): (name: string)
    ensures name != ""
    ensures Trim(nameInput) != "" ==> name == Trim(nameInput)
    ensures Trim(nameInput) == "" ==> name == Color.GetName(hex)
  {
    var trimmed := Trim(nameInput);
    if trimmed != "" then trimmed
    else Color.GetName(hex)
  }

  /** Putting a record with a hex not yet held in front of a list without
      repeated hex strings leaves none repeated. */
  lemma PrependKeepsUnique(c: SavedColor, colors: seq<SavedColor>)
    requires UniqueHexes(colors) && c.hex !in HexSet(colors)
    ensures UniqueHexes([c] + colors)
  {
    var s := [c] + colors;
    forall i, j | 0 <= i < j < |s| ensures s[i].hex != s[j].hex {
      assert s[j] == colors[j - 1];
      if i == 0 {
        assert s[j] in colors;
      } else {
        assert s[i] == colors[i - 1];
      }
    }
  }

  /** Saving a record with an id no other record has, then deleting that
      id, restores the list. */
  lemma DeleteUndoesSave(c: SavedColor, colors: seq<SavedColor>)
    requires forall x :: x in colors ==> x.id != c.id
    ensures Filter([c] + colors, OtherId(c.id)) == colors
  {
    FilterConcat([c], colors, OtherId(c.id));
    FilterAll(colors, OtherId(c.id));
  }

  // ---------------------------------------------------------------------
  // The Library class

  class Library {
    /** `this.colors`, newest first. */
    var colors: seq<SavedColor>

    /** No two saved records share a hex string. */
    ghost predicate Valid()
      reads this
    {
      UniqueHexes(colors)
    }

    constructor()
      ensures colors == []
      ensures Valid()
    {
      colors := [];
    }

    /** `save()`: a colour whose hex is already saved is not saved again;
        otherwise one new record is put in front of the list. The id and the
        time stamp are parameters. */
    method Save(current: Current, nameInput: string, id: string, now: int) returns (saved: bool)
      modifies this
      ensures saved <==> current.hex !in HexSet(old(colors))
      ensures !saved ==> colors == old(colors)
      ensures saved ==> colors == [SavedColor(id, current.hex, current.r, current.g, current.b,
                                              current.a, SavedName(nameInput, current.hex), now)]
                                  + old(colors)
      ensures old(Valid()) ==> Valid()
    {
      var name := SavedName(nameInput, current.hex);
      if current.hex in HexSet(colors) {
        saved := false;
        return;
      }
      var c := SavedColor(id, current.hex, current.r, current.g, current.b, current.a, name, now);
      ghost var before := colors;
      colors := [c] + colors;
      saved := true;
      if UniqueHexes(before) {
        PrependKeepsUnique(c, before);
      }
    }

    /** `delete(id)`: drops every record with that id and keeps the others
        in order. */
    method Delete(id: string)
      modifies this
      ensures colors == Filter(old(colors), OtherId(id))
      ensures forall c :: c in colors <==> c in old(colors) && c.id != id
      ensures old(Valid()) ==> Valid()
    {
      ghost var before := colors;
      colors := Filter(colors, OtherId(id));
      if UniqueHexes(before) {
        FilterKeepsUnique(before, OtherId(id));
      }
    }

    /** The confirmed "delete all colors" action empties the list; without
        confirmation nothing changes. */
    method ClearAll(confirmed: bool)
      modifies this
      ensures colors == (if confirmed then [] else old(colors))
      ensures old(Valid()) ==> Valid()
    {
      if confirmed {
        colors := [];
      }
    }

    /** The list `render(filter)` draws and the count it shows: the search
        result for `filter` (every record when `filter` is empty) and the
        size of the whole library. */
    method Render(filter: string) returns (list: seq<SavedColor>, count: nat)
      ensures list == Search(colors, filter)
      ensures count == |colors|
    {
      list := colors;
      if filter != "" {
        var q := ToLower(filter);
        list := Filter(colors, Matching(q));
      } else {
        SearchEmpty(colors);
      }
      count := |colors|;
    }

    /** The merge loop of `import` over an already parsed array: appends, in
        file order, each record whose hex is not yet in the list, counting
        records appended earlier in the same loop, and returns how many were
        appended. */
    method Import(data: seq<SavedColor>) returns (added: nat)
      modifies this
      ensures colors == old(colors) + Fresh(HexSet(old(colors)), data)
      ensures added == |colors| - |old(colors)|
      ensures old(Valid()) ==> Valid()
    {
      ghost var start := colors;
      added := 0;
      var i := 0;
      while i < |data|
        invariant 0 <= i <= |data|
        invariant colors + Fresh(HexSet(colors), data[i..]) == start + Fresh(HexSet(start), data)
        invariant added == |colors| - |start|
      {
        var c := data[i];
        assert data[i..] == [c] + data[i + 1..];
        if c.hex !in HexSet(colors) {
          HexSetConcat(colors, [c]);
          assert HexSet([c]) == {c.hex};
          colors := colors + [c];
          added := added + 1;
        }
        i := i + 1;
      }
      assert data[i..] == [];
      if UniqueHexes(start) {
        ImportKeepsUnique(start, data);
      }
    }
  }
}
