/** The text side of tools/reader.py: `createNet` reads a net from the lines
    of a .lola file and `createMarking` a marking from a .formula file. The
    file is handed over as its lines (each with its line break, as `readline`
    returns them) or as one string, and Python's `float()` is a parameter
    `toReal` that answers None where `float()` raises. Every exception the
    code can raise on malformed text becomes an `Err`. */
module Reader {

  import opened Results
  import opened Text
  import opened Vectors
  import opened PetriNet

  /** `file.readline()` for the k-th line: the line, or "" past the end. */
  function Line(lines: seq<string>, k: nat): string {
    if k < |lines| then lines[k] else ""
  }

  /** The names of `names` are pairwise different. */
  predicate Distinct(names: seq<string>) {
    forall i, j | 0 <= i < j < |names| :: names[i] != names[j]
  }

  /** The dictionary `ids[names[i]] = i` filled in order. */
  function Ids(names: seq<string>): (ids: map<string, nat>)
    ensures forall n :: n in ids <==> n in names
    ensures forall n | n in ids :: ids[n] < |names|
    decreases |names|
  {
    if names == [] then map[]
    else
      var init := names[..|names| - 1];
      assert forall n | n in names :: n in init || n == names[|names| - 1];
      Ids(init)[names[|names| - 1] := |names| - 1]
  }

  /** Every name maps to the position of its last occurrence. */
  lemma {:induction false} IdsLastOccurrence(names: seq<string>)
    ensures forall n | n in Ids(names) :: Ids(names)[n] < |names| && names[Ids(names)[n]] == n
    ensures forall n, j | n in Ids(names) && Ids(names)[n] < j < |names| :: names[j] != n
    decreases |names|
  {
    if names != [] {
      var init := names[..|names| - 1];
      IdsLastOccurrence(init);
      assert forall j | 0 <= j < |init| :: init[j] == names[j];
    }
  }

  /** With pairwise different names the ids are the positions. */
  lemma IdsOfDistinct(names: seq<string>)
    requires Distinct(names)
    ensures forall i | 0 <= i < |names| :: names[i] in Ids(names) && Ids(names)[names[i]] == i
  {
    IdsLastOccurrence(names);
    forall i | 0 <= i < |names|
      ensures names[i] in Ids(names)
    {
      assert names[i] in names;
    }
  }

  // ---------------------------------------------------------------------------
  // `name<sep>value` entries

  datatype Entry = Entry(name: string, value: real)

  /** With at least two pieces, the first piece and the separator open the string. */
  lemma SplitHead(s: string, sep: string)
    requires |sep| > 0 && |Split(s, sep)| >= 2
    ensures IsPrefix(Split(s, sep)[0] + sep, s)
  {
    var parts := Split(s, sep);
    JoinSplit(s, sep);
    assert Join(parts, sep) == parts[0] + sep + Join(parts[1..], sep);
    assert s[..|parts[0] + sep|] == parts[0] + sep;
  }

  /** `text.split(sep)[0]` and `float(text.split(sep)[1])`. Without the
      separator the index raises; a value `float()` rejects raises too. On
      success the name is the text before the first separator. */
  function ParseEntry(text: string, sep: string, toReal: string -> Option<real>): Result<Entry>
    requires |sep| > 0
  {
    var parts := Split(text, sep);
    if |parts| < 2 then Err("IndexError: list index out of range")
    else
      match toReal(parts[1])
      case None => Err("ValueError: could not convert string to float")
      case Some(v) => Ok(Entry(parts[0], v))
  }

  /** An entry without the separator is an error; a parsed name is the text
      before the first separator. */
  lemma ParseEntryName(text: string, sep: string, toReal: string -> Option<real>)
    requires |sep| > 0
    ensures Avoids(text, sep) ==> ParseEntry(text, sep, toReal).Err?
    ensures ParseEntry(text, sep, toReal).Ok? ==>
      var name := ParseEntry(text, sep, toReal).value.name;
      IsPrefix(name + sep, text) && Avoids(name, sep)
  {
    var parts := Split(text, sep);
    if |parts| >= 2 {
      SplitHead(text, sep);
      SplitPiecesAvoid(text, sep);
      assert OccursAt(text, sep, |parts[0]|);
    }
  }

  /** The entry parses and names a key of `ids` whose value indexes a vector of length n. */
  predicate Good(text: string, sep: string, ids: map<string, nat>, n: nat, toReal: string -> Option<real>)
    requires |sep| > 0
  {
    var e := ParseEntry(text, sep, toReal);
    e.Ok? && e.value.name in ids && ids[e.value.name] < n
  }

  /** The index a good entry assigns to. */
  function Target(text: string, sep: string, ids: map<string, nat>, n: nat, toReal: string -> Option<real>): (i: nat)
    requires |sep| > 0 && Good(text, sep, ids, n, toReal)
    ensures i < n
  {
    ids[ParseEntry(text, sep, toReal).value.name]
  }

  predicate AllGood(texts: seq<string>, sep: string, ids: map<string, nat>, n: nat, toReal: string -> Option<real>)
    requires |sep| > 0
  {
    forall k | 0 <= k < |texts| :: Good(texts[k], sep, ids, n, toReal)
  }

  /** The assignment loop `m[ids[name]] = float(value)` over the entries, in
      order. An unknown name raises a KeyError, an index past the vector an
      IndexError. */
  function AssignAll(texts: seq<string>, sep: string, ids: map<string, nat>, m: seq<real>,
                     toReal: string -> Option<real>): (r: Result<seq<real>>)
    requires |sep| > 0
    ensures r.Ok? ==> |r.value| == |m|
    decreases |texts|
  {
    if texts == [] then Ok(m)
    else
      match ParseEntry(texts[0], sep, toReal)
      case Err(e) => Err(e)
      case Ok(e) =>
        if e.name !in ids then Err("KeyError")
        else if ids[e.name] >= |m| then Err("IndexError: index out of bounds")
        else AssignAll(texts[1..], sep, ids, m[ids[e.name] := e.value], toReal)
  }

  /** The assignment succeeds exactly when every entry is good. */
  lemma {:induction false} AssignAllOk(texts: seq<string>, sep: string, ids: map<string, nat>, m: seq<real>,
                                       toReal: string -> Option<real>)
    requires |sep| > 0
    ensures AssignAll(texts, sep, ids, m, toReal).Ok? <==> AllGood(texts, sep, ids, |m|, toReal)
    decreases |texts|
  {
    if texts != [] {
      if Good(texts[0], sep, ids, |m|, toReal) {
        var e := ParseEntry(texts[0], sep, toReal).value;
        AssignAllOk(texts[1..], sep, ids, m[ids[e.name] := e.value], toReal);
        assert forall k | 1 <= k < |texts| :: texts[1..][k - 1] == texts[k];
      }
    }
  }

  /** An index no entry names keeps its value. */
  lemma {:induction false} AssignAllUnmentioned(texts: seq<string>, sep: string, ids: map<string, nat>, m: seq<real>,
                                                toReal: string -> Option<real>, i: nat)
    requires |sep| > 0 && AllGood(texts, sep, ids, |m|, toReal) && i < |m|
    requires forall k | 0 <= k < |texts| :: Target(texts[k], sep, ids, |m|, toReal) != i
    ensures AssignAll(texts, sep, ids, m, toReal).Ok?
    ensures AssignAll(texts, sep, ids, m, toReal).value[i] == m[i]
    decreases |texts|
  {
    AssignAllOk(texts, sep, ids, m, toReal);
    if texts != [] {
      var e := ParseEntry(texts[0], sep, toReal).value;
      assert Target(texts[0], sep, ids, |m|, toReal) != i;
      AssignAllUnmentioned(texts[1..], sep, ids, m[ids[e.name] := e.value], toReal, i);
    }
  }

  /** The last entry naming an index decides its value. */
  lemma {:induction false} AssignAllLastWins(texts: seq<string>, sep: string, ids: map<string, nat>, m: seq<real>,
                                             toReal: string -> Option<real>, k: nat)
    requires |sep| > 0 && AllGood(texts, sep, ids, |m|, toReal) && k < |texts|
    requires forall j | k < j < |texts| :: Target(texts[j], sep, ids, |m|, toReal) != Target(texts[k], sep, ids, |m|, toReal)
    ensures AssignAll(texts, sep, ids, m, toReal).Ok?
    ensures AssignAll(texts, sep, ids, m, toReal).value[Target(texts[k], sep, ids, |m|, toReal)]
            == ParseEntry(texts[k], sep, toReal).value.value
    decreases |texts|
  {
    AssignAllOk(texts, sep, ids, m, toReal);
    var e := ParseEntry(texts[0], sep, toReal).value;
    var m' := m[ids[e.name] := e.value];
    if k == 0 {
      AssignAllUnmentioned(texts[1..], sep, ids, m', toReal, ids[e.name]);
    } else {
      AssignAllLastWins(texts[1..], sep, ids, m', toReal, k - 1);
    }
  }

  // ---------------------------------------------------------------------------
  // Arcs of a CONSUME or PRODUCE line

  /** The non-empty entries, in order. */
  function NonEmpty(texts: seq<string>): (r: seq<string>)
    ensures forall k | 0 <= k < |r| :: |r[k]| > 0
    ensures |r| <= |texts|
  {
    if texts == [] then []
    else (if |texts[0]| > 0 then [texts[0]] else []) + NonEmpty(texts[1..])
  }

  /** Skipping empty entries keeps every non-empty entry as often as it occurs. */
  lemma {:induction false} NonEmptyKeeps(texts: seq<string>)
    ensures forall x | |x| > 0 :: multiset(NonEmpty(texts))[x] == multiset(texts)[x]
    ensures multiset(NonEmpty(texts))[""] == 0
  {
    if texts != [] {
      NonEmptyKeeps(texts[1..]);
      assert texts == [texts[0]] + texts[1..];
    }
  }

  /** Skipping empty entries keeps their order: it works piece by piece. */
  lemma {:induction false} NonEmptyAppend(a: seq<string>, b: seq<string>)
    ensures NonEmpty(a + b) == NonEmpty(a) + NonEmpty(b)
  {
    if a != [] {
      assert (a + b)[1..] == a[1..] + b;
      NonEmptyAppend(a[1..], b);
    } else {
      assert a + b == b;
    }
  }

  /** The arcs of the entries `place:weight`, skipping empty entries; the
      arc's place is the id of the named place among n places. */
  function ArcsOf(texts: seq<string>, ids: map<string, nat>, n: nat, toReal: string -> Option<real>): (r: Result<seq<Arc>>)
    ensures r.Ok? ==> ArcsWithin(r.value, n)
    decreases |texts|
  {
    if texts == [] then Ok([])
    else if |texts[0]| == 0 then ArcsOf(texts[1..], ids, n, toReal)
    else
      match ParseEntry(texts[0], ":", toReal)
      case Err(e) => Err(e)
      case Ok(e) =>
        if e.name !in ids then Err("KeyError")
        else if ids[e.name] >= n then Err("IndexError: list index out of range")
        else
          match ArcsOf(texts[1..], ids, n, toReal)
          case Err(e) => Err(e)
          case Ok(rest) => Ok([Arc(ids[e.name], e.value)] + rest)
  }

  /** Empty entries make no arc: reading the list is reading its non-empty entries. */
  lemma {:induction false} ArcsSkipEmpty(texts: seq<string>, ids: map<string, nat>, n: nat, toReal: string -> Option<real>)
    ensures ArcsOf(texts, ids, n, toReal) == ArcsOf(NonEmpty(texts), ids, n, toReal)
    decreases |texts|
  {
    if texts != [] {
      ArcsSkipEmpty(texts[1..], ids, n, toReal);
      if |texts[0]| > 0 {
        var ne := NonEmpty(texts);
        assert ne == [texts[0]] + NonEmpty(texts[1..]);
        assert ne[0] == texts[0] && ne[1..] == NonEmpty(texts[1..]);
        assert ArcsOf(ne[1..], ids, n, toReal) == ArcsOf(texts[1..], ids, n, toReal);
      } else {
        assert ArcsOf(texts, ids, n, toReal) == ArcsOf(texts[1..], ids, n, toReal);
        assert NonEmpty(texts) == NonEmpty(texts[1..]);
      }
    }
  }

  /** The arc a good entry `place:weight` describes. */
  function ArcOf(text: string, ids: map<string, nat>, n: nat, toReal: string -> Option<real>): Arc
    requires Good(text, ":", ids, n, toReal)
  {
    Arc(Target(text, ":", ids, n, toReal), ParseEntry(text, ":", toReal).value.value)
  }

  /** A list of non-empty entries is read exactly when every entry is good,
      and then gives one arc per entry, in order. */
  lemma {:induction false} ArcsOfEntries(texts: seq<string>, ids: map<string, nat>, n: nat, toReal: string -> Option<real>)
    requires forall k | 0 <= k < |texts| :: |texts[k]| > 0
    ensures ArcsOf(texts, ids, n, toReal).Ok? <==> AllGood(texts, ":", ids, n, toReal)
    ensures ArcsOf(texts, ids, n, toReal).Ok? ==>
      && |ArcsOf(texts, ids, n, toReal).value| == |texts|
      && forall k | 0 <= k < |texts| :: ArcsOf(texts, ids, n, toReal).value[k] == ArcOf(texts[k], ids, n, toReal)
    decreases |texts|
  {
    if texts != [] {
      ArcsOfEntries(texts[1..], ids, n, toReal);
      assert forall k | 1 <= k < |texts| :: texts[1..][k - 1] == texts[k];
    }
  }

  // ---------------------------------------------------------------------------
  // `createNet`

  /** The lines after the header, without the lines that are only a line break. */
  function NonBlankLines(lines: seq<string>): (r: seq<string>)
    ensures forall k | 0 <= k < |r| :: r[k] != "\n"
    ensures |r| <= |lines|
  {
    if lines == [] then []
    else (if lines[0] != "\n" then [lines[0]] else []) + NonBlankLines(lines[1..])
  }

  /** Dropping the bare line breaks keeps every other line as often as it occurs. */
  lemma {:induction false} NonBlankLinesKeeps(lines: seq<string>)
    ensures forall x | x != "\n" :: multiset(NonBlankLines(lines))[x] == multiset(lines)[x]
    ensures multiset(NonBlankLines(lines))["\n"] == 0
  {
    if lines != [] {
      NonBlankLinesKeeps(lines[1..]);
      assert lines == [lines[0]] + lines[1..];
    }
  }

  /** Dropping the bare line breaks keeps the order of the other lines: it works piece by piece. */
  lemma {:induction false} NonBlankLinesAppend(a: seq<string>, b: seq<string>)
    ensures NonBlankLines(a + b) == NonBlankLines(a) + NonBlankLines(b)
  {
    if a != [] {
      assert (a + b)[1..] == a[1..] + b;
      NonBlankLinesAppend(a[1..], b);
    } else {
      assert a + b == b;
    }
  }

  /** The name of a transition: its first line without the 11 characters of "TRANSITION ". */
  function TransitionName(line: string): string {
    CleanLine(Drop(line, 11))
  }

  /** The entries of a CONSUME or PRODUCE line: without its 8-character keyword, split at commas. */
  function ArcEntries(line: string): (r: seq<string>)
    ensures |r| >= 1
  {
    Split(CleanLine(Drop(line, 8)), ",")
  }

  /** One transition per consecutive group of three lines; a last group with
      fewer than three lines is ignored, as `int(len(lines)/3)` does. */
  function Specs(tl: seq<string>, ids: map<string, nat>, n: nat, toReal: string -> Option<real>)
    : (r: Result<seq<TransitionSpec>>)
    ensures r.Ok? ==> |r.value| == |tl| / 3 && SpecsWithin(r.value, n)
    decreases |tl|
  {
    if |tl| < 3 then Ok([])
    else
      match ArcsOf(ArcEntries(tl[1]), ids, n, toReal)
      case Err(e) => Err(e)
      case Ok(inArcs) =>
        match ArcsOf(ArcEntries(tl[2]), ids, n, toReal)
        case Err(e) => Err(e)
        case Ok(outArcs) =>
          match Specs(tl[3..], ids, n, toReal)
          case Err(e) => Err(e)
          case Ok(rest) =>
            Ok([TransitionSpec(TransitionName(tl[0]), inArcs, outArcs)] + rest)
  }

  /** Transition k is named after the first line of the k-th group of three. */
  lemma {:induction false} SpecsNames(tl: seq<string>, ids: map<string, nat>, n: nat, toReal: string -> Option<real>)
    requires Specs(tl, ids, n, toReal).Ok?
    ensures var r := Specs(tl, ids, n, toReal).value;
      forall k | 0 <= k < |r| :: r[k].name == TransitionName(tl[3 * k])
    decreases |tl|
  {
    if |tl| >= 3 {
      var inArcs := ArcsOf(ArcEntries(tl[1]), ids, n, toReal);
      var outArcs := ArcsOf(ArcEntries(tl[2]), ids, n, toReal);
      var rest := Specs(tl[3..], ids, n, toReal);
      assert inArcs.Ok? && outArcs.Ok? && rest.Ok?;
      var r := Specs(tl, ids, n, toReal).value;
      assert r == [TransitionSpec(TransitionName(tl[0]), inArcs.value, outArcs.value)] + rest.value;
      SpecsNames(tl[3..], ids, n, toReal);
      forall k | 0 <= k < |r|
        ensures r[k].name == TransitionName(tl[3 * k])
      {
        if k > 0 {
          assert r[k] == rest.value[k - 1];
          assert 3 * k == 3 * (k - 1) + 3;
          assert tl[3 * k] == tl[3..][3 * (k - 1)];
        }
      }
    }
  }

  /** The CONSUME and the PRODUCE line of the k-th group of three. */
  function ConsumeLine(tl: seq<string>, k: nat): string
    requires 3 * k + 2 < |tl|
  {
    tl[3 * k + 1]
  }

  function ProduceLine(tl: seq<string>, k: nat): string
    requires 3 * k + 2 < |tl|
  {
    tl[3 * k + 2]
  }

  /** Both arc lines of the k-th group of three can be read. */
  predicate GroupRead(tl: seq<string>, k: nat, ids: map<string, nat>, n: nat, toReal: string -> Option<real>)
    requires 3 * k + 2 < |tl|
  {
    && ArcsOf(ArcEntries(ConsumeLine(tl, k)), ids, n, toReal).Ok?
    && ArcsOf(ArcEntries(ProduceLine(tl, k)), ids, n, toReal).Ok?
  }

  /** Group k + 1 of the lines is group k of the lines after the first group. */
  lemma GroupShift(tl: seq<string>, k: nat, ids: map<string, nat>, n: nat, toReal: string -> Option<real>)
    requires 3 * k + 5 < |tl|
    ensures ConsumeLine(tl, k + 1) == ConsumeLine(tl[3..], k)
    ensures ProduceLine(tl, k + 1) == ProduceLine(tl[3..], k)
    ensures GroupRead(tl, k + 1, ids, n, toReal) == GroupRead(tl[3..], k, ids, n, toReal)
  {
  }

  /** The transitions are read when the first group is and the rest are. */
  lemma SpecsReadFirst(tl: seq<string>, ids: map<string, nat>, n: nat, toReal: string -> Option<real>)
    requires |tl| >= 3
    ensures Specs(tl, ids, n, toReal).Ok? <==> GroupRead(tl, 0, ids, n, toReal) && Specs(tl[3..], ids, n, toReal).Ok?
  {
  }

  /** Every group can be read when the first one can and every later one can. */
  lemma GroupsReadFirst(tl: seq<string>, ids: map<string, nat>, n: nat, toReal: string -> Option<real>)
    requires |tl| >= 3
    ensures (forall k: nat | 3 * k + 2 < |tl| :: GroupRead(tl, k, ids, n, toReal)) <==>
      GroupRead(tl, 0, ids, n, toReal) && forall k: nat | 3 * k + 2 < |tl[3..]| :: GroupRead(tl[3..], k, ids, n, toReal)
  {
    forall k: nat | 3 * k + 5 < |tl| {
      GroupShift(tl, k, ids, n, toReal);
    }
    if GroupRead(tl, 0, ids, n, toReal) && forall k: nat | 3 * k + 2 < |tl[3..]| :: GroupRead(tl[3..], k, ids, n, toReal) {
      forall k: nat | 3 * k + 2 < |tl|
        ensures GroupRead(tl, k, ids, n, toReal)
      {
        if k > 0 {
          assert GroupRead(tl[3..], k - 1, ids, n, toReal);
        }
      }
    }
  }

  /** The transitions are read exactly when both arc lines of every group are. */
  lemma {:induction false} SpecsRead(tl: seq<string>, ids: map<string, nat>, n: nat, toReal: string -> Option<real>)
    ensures Specs(tl, ids, n, toReal).Ok? <==>
      forall k: nat | 3 * k + 2 < |tl| :: GroupRead(tl, k, ids, n, toReal)
    decreases |tl|
  {
    if |tl| >= 3 {
      SpecsRead(tl[3..], ids, n, toReal);
      SpecsReadFirst(tl, ids, n, toReal);
      GroupsReadFirst(tl, ids, n, toReal);
    }
  }

  /** Transition k consumes what the CONSUME line of the k-th group lists and
      produces what its PRODUCE line lists. */
  lemma {:induction false} SpecsArcs(tl: seq<string>, ids: map<string, nat>, n: nat, toReal: string -> Option<real>)
    requires Specs(tl, ids, n, toReal).Ok?
    ensures var r := Specs(tl, ids, n, toReal).value;
      forall k: nat | k < |r| ::
        && 3 * k + 2 < |tl| && GroupRead(tl, k, ids, n, toReal)
        && r[k].inArcs == ArcsOf(ArcEntries(ConsumeLine(tl, k)), ids, n, toReal).value
        && r[k].outArcs == ArcsOf(ArcEntries(ProduceLine(tl, k)), ids, n, toReal).value
    decreases |tl|
  {
    if |tl| >= 3 {
      var tl' := tl[3..];
      var inArcs := ArcsOf(ArcEntries(tl[1]), ids, n, toReal);
      var outArcs := ArcsOf(ArcEntries(tl[2]), ids, n, toReal);
      var rest := Specs(tl', ids, n, toReal);
      assert inArcs.Ok? && outArcs.Ok? && rest.Ok?;
      SpecsArcs(tl', ids, n, toReal);
      var r := Specs(tl, ids, n, toReal).value;
      assert r == [TransitionSpec(TransitionName(tl[0]), inArcs.value, outArcs.value)] + rest.value;
      forall k: nat | k < |r|
        ensures 3 * k + 2 < |tl| && GroupRead(tl, k, ids, n, toReal)
        ensures r[k].inArcs == ArcsOf(ArcEntries(ConsumeLine(tl, k)), ids, n, toReal).value
        ensures r[k].outArcs == ArcsOf(ArcEntries(ProduceLine(tl, k)), ids, n, toReal).value
      {
        if k > 0 {
          assert r[k] == rest.value[k - 1];
          GroupShift(tl, k - 1, ids, n, toReal);
        }
      }
    }
  }

  function SpecNames(specs: seq<TransitionSpec>): (r: seq<string>)
    ensures |r| == |specs| && forall k | 0 <= k < |specs| :: r[k] == specs[k].name
  {
    seq(|specs|, k requires 0 <= k < |specs| => specs[k].name)
  }

  /** The place list of `createNet`: place i is named names[i], has the id of
      its name and the tokens the marking gives that id, and starts unlinked. */
  function PlacesOf(names: seq<string>, marking: seq<real>): (r: seq<Place>)
    requires |marking| == |names|
    ensures |r| == |names|
    ensures forall i | 0 <= i < |names| ::
      && r[i].name == names[i] && r[i].id == Ids(names)[names[i]]
      && r[i].tokens == marking[r[i].id] && r[i].preset == {} && r[i].postset == {}
  {
    var ids := Ids(names);
    seq(|names|, i requires 0 <= i < |names| =>
      assert names[i] in names;
      Place(ids[names[i]], names[i], marking[ids[names[i]]], {}, {}))
  }

  /** Place i carries the id of the last place named like it, with that
      place's tokens; with pairwise different names, place i has id i and the
      i-th tokens. */
  lemma PlacesOfIds(names: seq<string>, marking: seq<real>)
    requires |marking| == |names|
    ensures var r := PlacesOf(names, marking);
      forall i | 0 <= i < |names| ::
        && r[i].id < |names| && names[r[i].id] == names[i]
        && (forall j | r[i].id < j < |names| :: names[j] != names[i])
    ensures Distinct(names) ==> var r := PlacesOf(names, marking);
      forall i | 0 <= i < |names| :: r[i].id == i && r[i].tokens == marking[i]
  {
    IdsLastOccurrence(names);
    if Distinct(names) {
      IdsOfDistinct(names);
    }
  }

  /** Line 1: the place names, comma-separated. */
  function PlaceNames(lines: seq<string>): seq<string> {
    Split(CleanLine(Line(lines, 1)), ",")
  }

  /** Line 4: the initial marking as `place:tokens` entries. */
  function MarkingEntries(lines: seq<string>): seq<string> {
    Split(CleanLine(Line(lines, 4)), ",")
  }

  /** From line 6 on: the non-blank lines, three per transition. */
  function TransitionLines(lines: seq<string>): seq<string> {
    NonBlankLines(if 6 <= |lines| then lines[6..] else [])
  }

  /** `createNet(path)` on the file's lines. */
  function CreateNet(path: string, lines: seq<string>, toReal: string -> Option<real>): Result<Net> {
    var names := PlaceNames(lines);
    var ids := Ids(names);
    match AssignAll(MarkingEntries(lines), ":", ids, Zeros(|names|), toReal)
    case Err(e) => Err(e)
    case Ok(marking) =>
      match Specs(TransitionLines(lines), ids, |names|, toReal)
      case Err(e) => Err(e)
      case Ok(specs) =>
        var built := NewTransitions(PlacesOf(names, marking), specs, 0);
        Ok(Net(path, built.1, built.0, marking, ids, Ids(SpecNames(specs))))
  }

  /** Building the transitions over places whose ids are their positions and
      that start unlinked gives a valid, linked net that keeps every place's
      id, name and tokens. */
  lemma BuiltNetValid(path: string, places: seq<Place>, specs: seq<TransitionSpec>, marking: seq<real>,
                      ids: map<string, nat>, tids: map<string, nat>)
    requires SpecsWithin(specs, |places|)
    requires forall q | 0 <= q < |places| :: places[q].id == q && places[q].preset == {} && places[q].postset == {}
    ensures var built := NewTransitions(places, specs, 0);
      var net := Net(path, built.1, built.0, marking, ids, tids);
      && ValidNet(net) && Linked(net) && net.t() == |specs|
      && forall q | 0 <= q < |places| :: net.places[q].name == places[q].name && net.places[q].tokens == places[q].tokens
  {
    var built := NewTransitions(places, specs, 0);
    var p := |places|;
    NewTransitionsGiveLinkedNet(path, places, specs, marking, ids, tids);
    NewTransitionsShape(places, specs, 0);
    forall q | 0 <= q < p
      ensures && built.1[q].id == q && built.1[q].name == places[q].name && built.1[q].tokens == places[q].tokens
              && (forall j | j in built.1[q].preset :: j < |specs|)
              && (forall j | j in built.1[q].postset :: j < |specs|)
    {
      NewTransitionsPlace(places, specs, 0, q);
      LinkedIdsMembers(specs, 0, q, true);
      LinkedIdsMembers(specs, 0, q, false);
    }
    forall j | 0 <= j < |specs|
      ensures TransitionWithin(built.0[j], p)
    {
      assert ArcsWithin(specs[j].inArcs, p) && ArcsWithin(specs[j].outArcs, p);
    }
  }

  /** A net read from a file whose place names are pairwise different is a
      valid, two-way linked net: place i is the i-th name with id i and the
      initial marking's entry i as tokens, and there is one transition per
      group of three transition lines. */
  lemma CreateNetValid(path: string, lines: seq<string>, toReal: string -> Option<real>)
    requires CreateNet(path, lines, toReal).Ok? && Distinct(PlaceNames(lines))
    ensures var net := CreateNet(path, lines, toReal).value;
      && ValidNet(net) && Linked(net)
      && net.p() == |PlaceNames(lines)| == |net.marking|
      && (forall i | 0 <= i < net.p() :: net.places[i].name == PlaceNames(lines)[i] && net.places[i].tokens == net.marking[i])
      && (forall i | 0 <= i < net.p() :: PlaceNames(lines)[i] in net.placeIds && net.placeIds[PlaceNames(lines)[i]] == i)
      && net.t() == |TransitionLines(lines)| / 3
  {
    var names := PlaceNames(lines);
    var ids := Ids(names);
    var marking := AssignAll(MarkingEntries(lines), ":", ids, Zeros(|names|), toReal).value;
    var places := PlacesOf(names, marking);
    var specs := Specs(TransitionLines(lines), ids, |names|, toReal).value;
    IdsOfDistinct(names);
    BuiltNetValid(path, places, specs, marking, ids, Ids(SpecNames(specs)));
  }

  /** A place the MARKING line does not name starts with 0 tokens. */
  lemma CreateNetUnmarked(path: string, lines: seq<string>, toReal: string -> Option<real>, i: nat)
    requires AllGood(MarkingEntries(lines), ":", Ids(PlaceNames(lines)), |PlaceNames(lines)|, toReal)
    requires i < |PlaceNames(lines)|
    requires forall k | 0 <= k < |MarkingEntries(lines)| ::
      Target(MarkingEntries(lines)[k], ":", Ids(PlaceNames(lines)), |PlaceNames(lines)|, toReal) != i
    requires CreateNet(path, lines, toReal).Ok?
    ensures CreateNet(path, lines, toReal).value.marking[i] == 0.0
  {
    var names := PlaceNames(lines);
    var z := Zeros(|names|);
    assert |z| == |names|;
    AssignAllUnmentioned(MarkingEntries(lines), ":", Ids(names), z, toReal, i);
  }

  // ---------------------------------------------------------------------------
  // `createMarking`

  /** The formula text with "AGEF", "EF", "AG" and line breaks removed (in
      that order), stripped, and its parentheses removed. */
  function NormalizeFormula(text: string): string {
    var f := RemoveAll(RemoveAll(RemoveAll(RemoveAll(text, "AGEF"), "EF"), "AG"), "\n");
    RemoveAll(RemoveAll(Strip(f), "("), ")")
  }

  /** One atom without its spaces, '>' and '<': "p >= 3" becomes "p=3". */
  function NormalizeAtom(text: string): string {
    RemoveAll(RemoveAll(RemoveAll(text, " "), ">"), "<")
  }

  /** Normalising removes every space, '>' and '<' and keeps every other
      character as often as it occurs. */
  lemma NormalizeAtomRemoves(text: string)
    ensures var r := NormalizeAtom(text);
      && (forall k | 0 <= k < |r| :: r[k] != ' ' && r[k] != '>' && r[k] != '<')
      && (forall c | c != ' ' && c != '>' && c != '<' :: multiset(r)[c] == multiset(text)[c])
  {
    var w1 := Without(text, ' ');
    var w2 := Without(w1, '>');
    var w3 := Without(w2, '<');
    RemoveCharIsWithout(text, ' ');
    RemoveCharIsWithout(w1, '>');
    RemoveCharIsWithout(w2, '<');
    assert NormalizeAtom(text) == w3;
    assert ' ' !in w1 && '>' !in w2 && '<' !in w3;
    assert multiset(w2)[' '] == multiset(w1)[' '] == 0;
    assert multiset(w3)[' '] == 0 && multiset(w3)['>'] == multiset(w2)['>'] == 0;
    assert ' ' !in w3 && '>' !in w3;
  }

  /** The atoms of a formula: split at "AND", each normalised. */
  function Atoms(text: string): seq<string> {
    NormalizeAtoms(Split(NormalizeFormula(text), "AND"))
  }

  function NormalizeAtoms(atoms: seq<string>): (r: seq<string>)
    ensures |r| == |atoms| && forall k | 0 <= k < |atoms| :: r[k] == NormalizeAtom(atoms[k])
  {
    if atoms == [] then [] else [NormalizeAtom(atoms[0])] + NormalizeAtoms(atoms[1..])
  }

  /** `createMarking(net, path)` on the file's text: a vector of net.p zeros
      in which each atom `place=value` sets the place's entry. */
  function CreateMarking(net: Net, text: string, toReal: string -> Option<real>): (r: Result<seq<real>>)
    ensures r.Ok? ==> |r.value| == net.p()
  {
    AssignAll(Atoms(text), "=", net.placeIds, Zeros(net.p()), toReal)
  }

  /** The marking is read exactly when every atom is `name=value` with a known
      name and a number; unnamed places stay 0 and the last atom for a place wins. */
  lemma CreateMarkingValues(net: Net, text: string, toReal: string -> Option<real>)
    ensures CreateMarking(net, text, toReal).Ok? <==> AllGood(Atoms(text), "=", net.placeIds, net.p(), toReal)
    ensures CreateMarking(net, text, toReal).Ok? ==>
      var atoms := Atoms(text);
      forall i | 0 <= i < net.p() ::
        (forall k | 0 <= k < |atoms| :: Target(atoms[k], "=", net.placeIds, net.p(), toReal) != i) ==>
          CreateMarking(net, text, toReal).value[i] == 0.0
    ensures CreateMarking(net, text, toReal).Ok? ==>
      var atoms := Atoms(text);
      forall k | 0 <= k < |atoms| ::
        (forall j | k < j < |atoms| :: Target(atoms[j], "=", net.placeIds, net.p(), toReal)
                                        != Target(atoms[k], "=", net.placeIds, net.p(), toReal)) ==>
          CreateMarking(net, text, toReal).value[Target(atoms[k], "=", net.placeIds, net.p(), toReal)]
            == ParseEntry(atoms[k], "=", toReal).value.value
  {
    var atoms := Atoms(text);
    AssignAllOk(atoms, "=", net.placeIds, Zeros(net.p()), toReal);
    if CreateMarking(net, text, toReal).Ok? {
      forall i | 0 <= i < net.p() && (forall k | 0 <= k < |atoms| :: Target(atoms[k], "=", net.placeIds, net.p(), toReal) != i)
        ensures CreateMarking(net, text, toReal).value[i] == 0.0
      {
        AssignAllUnmentioned(atoms, "=", net.placeIds, Zeros(net.p()), toReal, i);
      }
      forall k | 0 <= k < |atoms| && (forall j | k < j < |atoms| :: Target(atoms[j], "=", net.placeIds, net.p(), toReal)
                                                                  != Target(atoms[k], "=", net.placeIds, net.p(), toReal))
        ensures CreateMarking(net, text, toReal).value[Target(atoms[k], "=", net.placeIds, net.p(), toReal)]
                == ParseEntry(atoms[k], "=", toReal).value.value
      {
        AssignAllLastWins(atoms, "=", net.placeIds, Zeros(net.p()), toReal, k);
      }
    }
  }

  /** Removing `pat` from a string without its first character changes nothing. */
  lemma RemoveMissing(s: string, pat: string)
    requires |pat| > 0 && pat[0] !in s
    ensures RemoveAll(s, pat) == s
  {
    MissingFirstChar(s, pat);
    RemoveAbsent(s, pat);
  }

  lemma RemoveEFFromLeft()
    ensures RemoveAll("LEFT=1", "EF") == "LT=1"
  {
    var s := "LEFT=1";
    assert s[..2] != "EF" && s[1..] == "EFT=1";
    assert "EFT=1"[..2] == "EF" && "EFT=1"[2..] == "T=1";
    RemoveMissing("T=1", "EF");
  }

  lemma RemovalsOfLeft()
    ensures RemoveAll(RemoveAll(RemoveAll(RemoveAll("LEFT=1", "AGEF"), "EF"), "AG"), "\n") == "LT=1"
  {
    RemoveMissing("LEFT=1", "AGEF");
    RemoveEFFromLeft();
    RemoveMissing("LT=1", "AG");
    RemoveMissing("LT=1", "\n");
  }

  lemma StripLT()
    ensures Strip("LT=1") == "LT=1"
  {
    assert Leading("LT=1") == 0;
    assert Kept("LT=1") == 4;
  }

  lemma ParenthesesOfLT()
    ensures RemoveAll(RemoveAll("LT=1", "("), ")") == "LT=1"
  {
    RemoveMissing("LT=1", "(");
    RemoveMissing("LT=1", ")");
  }

  lemma NormalizeLeft()
    ensures NormalizeFormula("LEFT=1") == "LT=1"
  {
    RemovalsOfLeft();
    StripLT();
    ParenthesesOfLT();
  }

  lemma SplitLT()
    ensures Split("LT=1", "AND") == ["LT=1"]
  {
    MissingFirstChar("LT=1", "AND");
    SplitAbsent("LT=1", "AND");
  }

  lemma NormalizeAtomLT()
    ensures NormalizeAtom("LT=1") == "LT=1"
  {
    RemoveMissing("LT=1", " ");
    RemoveMissing("LT=1", ">");
    RemoveMissing("LT=1", "<");
  }

  /** The removals mangle place names: in the atom "LEFT=1" the "EF" inside
      "LEFT" goes, and the atom names a place "LT". */
  lemma PlaceNameMangled()
    ensures Atoms("LEFT=1") == ["LT=1"]
  {
    NormalizeLeft();
    SplitLT();
    NormalizeAtomLT();
    assert NormalizeAtoms(["LT=1"]) == ["LT=1"];
  }

  /** "CONSUME ;" lists no place and gives no arc. */
  lemma EmptyConsumeLine(ids: map<string, nat>, n: nat, toReal: string -> Option<real>)
    ensures ArcsOf(ArcEntries("CONSUME ;\n"), ids, n, toReal) == Ok([])
  {
  }
}
