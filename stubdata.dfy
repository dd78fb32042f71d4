/** The `@data` dictionaries of the stub-file maker (`MakeStubFile.scan_d`):
    each line of an `@data` node is a `name: value` pair, split at its first
    colon, both halves stripped. */
module StubData {
  import opened Dicts
  import opened Text

  type Data = Dict<string, string>

  /** What the configuration lookup hands over: the lines of the `@data`
      node, or `None` when there is no such node. */
  datatype Option<T> = None | Some(value: T)

  /** The outcome of `scan_d`: the dictionary, or the exception it raises —
      iterating over `None`, or unpacking line `at`, which has no colon,
      into a name and a value. */
  datatype Outcome = Parsed(d: Data) | NotIterable | NoColon(at: nat)

  /** A line of the node split at its first colon, both halves stripped;
      a line without a colon cannot be unpacked. */
  datatype Line = Unpackable | Pair(name: string, value: string)

  function LineOf(s: string): (l: Line)
    ensures l.Pair? <==> ':' in s
  {
    match SplitOnce(s, ':')
    case NoSeparator => Unpackable
    case Halves(before, after) => Pair(Strip(before), Strip(after))
  }

  /** Every line of the node, split. */
  function LinesOf(lines: seq<string>): (ls: seq<Line>)
    ensures |ls| == |lines|
  {
    if lines == [] then [] else LinesOf(lines[..|lines| - 1]) + [LineOf(lines[|lines| - 1])]
  }

  /** Line `i` is split on its own. */
  lemma {:induction false} LinesOfAt(lines: seq<string>, i: nat)
    requires i < |lines|
    ensures LinesOf(lines)[i] == LineOf(lines[i])
  {
    var init := lines[..|lines| - 1];
    if i < |lines| - 1 {
      LinesOfAt(init, i);
      assert lines[i] == init[i];
    }
  }

  /** The dictionary after the first `n` lines, or the first line that
      cannot be unpacked. */
  function ParseOf(ls: seq<Line>, n: nat): (r: Outcome)
    requires n <= |ls|
    ensures !r.NotIterable?
    ensures r.Parsed? ==> Valid(r.d)
  {
    if n == 0 then Parsed(Empty())
    else
      var r := ParseOf(ls, n - 1);
      if !r.Parsed? then r
      else if ls[n - 1].Pair? then Parsed(Put(r.d, ls[n - 1].name, ls[n - 1].value))
      else NoColon(n - 1)
  }

  /** `scan_d` as written: a missing node is reported, and then the loop
      iterates over `None`, which raises. */
  function ScanDataAsWritten(data: Option<seq<string>>): (r: Outcome)
    ensures r.NotIterable? <==> data.None?
  {
    match data
    case None => NotIterable
    case Some(lines) => ParseOf(LinesOf(lines), |lines|)
  }

  /** `scan_d` as evidently intended: a missing node gives the empty
      dictionary, as an empty one does. */
  function ScanData(data: Option<seq<string>>): (r: Outcome)
    ensures r.Parsed? || r.NoColon?
    ensures data == None ==> r == Parsed(Empty())
    ensures data.Some? ==> r == ScanDataAsWritten(data)
  {
    match data
    case None => Parsed(Empty())
    case Some(lines) => ParseOf(LinesOf(lines), |lines|)
  }

  /** The two differ exactly on a missing `@data` node. */
  lemma ScanDataMissingNode(data: Option<seq<string>>)
    ensures ScanDataAsWritten(data) != ScanData(data) <==> data.None?
  {
  }

  /** Parsing succeeds exactly when every line can be unpacked; otherwise
      it stops at the first line that cannot. */
  lemma {:induction false} ParseOfOutcome(ls: seq<Line>, n: nat)
    requires n <= |ls|
    ensures var r := ParseOf(ls, n);
            && (r.Parsed? <==> forall i | 0 <= i < n :: ls[i].Pair?)
            && (r.NoColon? ==> r.at < n && ls[r.at] == Unpackable && forall i | 0 <= i < r.at :: ls[i].Pair?)
  {
    if n > 0 {
      ParseOfOutcome(ls, n - 1);
    }
  }

  /** Once a line cannot be unpacked, the lines after it are never read. */
  lemma {:induction false} ParseOfStops(ls: seq<Line>, i: nat, n: nat)
    requires i < n <= |ls| && ParseOf(ls, i).Parsed? && ls[i] == Unpackable
    ensures ParseOf(ls, n) == NoColon(i)
  {
    if n > i + 1 {
      ParseOfStops(ls, i, n - 1);
    }
  }

  /** `scan_d` fails exactly on the first line without a colon. */
  lemma ScanDataFails(lines: seq<string>)
    ensures var r := ScanData(Some(lines));
            && (r.Parsed? <==> forall i | 0 <= i < |lines| :: ':' in lines[i])
            && (r.NoColon? ==> r.at < |lines| && ':' !in lines[r.at] && forall i | 0 <= i < r.at :: ':' in lines[i])
  {
    ParseOfOutcome(LinesOf(lines), |lines|);
    forall i | 0 <= i < |lines| ensures LinesOf(lines)[i] == LineOf(lines[i]) {
      LinesOfAt(lines, i);
    }
  }

  /** A successful parse files every line under its name. */
  lemma {:induction false} ParseOfNames(ls: seq<Line>, n: nat)
    requires n <= |ls| && ParseOf(ls, n).Parsed?
    ensures forall i | 0 <= i < n :: ls[i].Pair? && ls[i].name in ParseOf(ls, n).d.m
  {
    if n > 0 {
      ParseOfNames(ls, n - 1);
    }
  }

  /** Every name filed comes from some line. */
  lemma {:induction false} ParseOfOrigin(ls: seq<Line>, n: nat)
    requires n <= |ls| && ParseOf(ls, n).Parsed?
    ensures forall k | k in ParseOf(ls, n).d.m :: exists i | 0 <= i < n :: ls[i].Pair? && ls[i].name == k
  {
    if n > 0 {
      ParseOfOrigin(ls, n - 1);
      var d := ParseOf(ls, n).d;
      forall k | k in d.m ensures exists i | 0 <= i < n :: ls[i].Pair? && ls[i].name == k {
        if k != ls[n - 1].name {
          var i :| 0 <= i < n - 1 && ls[i].Pair? && ls[i].name == k;
        }
      }
    }
  }

  /** A name given on several lines takes the value of the last one. */
  lemma {:induction false} ParseOfLastWins(ls: seq<Line>, n: nat)
    requires n <= |ls| && ParseOf(ls, n).Parsed?
    ensures forall i | 0 <= i < n && ls[i].Pair? && (forall j | i < j < n :: ls[j].Pair? ==> ls[j].name != ls[i].name) ::
              ls[i].name in ParseOf(ls, n).d.m && ParseOf(ls, n).d.m[ls[i].name] == ls[i].value
  {
    if n > 0 {
      ParseOfLastWins(ls, n - 1);
    }
  }

  /** A value may itself hold colons: only the first one separates. */
  lemma ColonsInValue(name: string, value: string)
    requires ':' !in name
    ensures LineOf(name + ":" + value) == Pair(Strip(name), Strip(value))
  {
    SplitOnceJoin(name, ':', value);
  }

  /** The lines of an `@data` node that spell out `d`, one `name:value` per key. */
  function Render(d: Data): (lines: seq<string>)
    requires Valid(d)
    ensures |lines| == |d.keys|
  {
    seq(|d.keys|, i requires 0 <= i < |d.keys| => d.keys[i] + ":" + d.m[d.keys[i]])
  }

  /** The first `n` entries of `d`. */
  ghost function Prefix(d: Data, n: nat): Data
    requires Valid(d) && n <= |d.keys|
  {
    Dict(d.keys[..n], map k | k in d.keys[..n] :: d.m[k])
  }

  /** Each line written out for `d` reads back as its pair. */
  lemma RenderLine(d: Data, i: nat)
    requires Valid(d) && i < |d.keys|
    requires forall k | k in d.m :: ':' !in k && Strip(k) == k && Strip(d.m[k]) == d.m[k]
    ensures LinesOf(Render(d))[i] == Pair(d.keys[i], d.m[d.keys[i]])
  {
    var k := d.keys[i];
    ColonsInValue(k, d.m[k]);
    LinesOfAt(Render(d), i);
  }

  /** Adding the next key of `d` to its first `n - 1` entries gives its first `n`. */
  lemma PrefixNext(d: Data, n: nat)
    requires Valid(d) && 0 < n <= |d.keys|
    ensures Put(Prefix(d, n - 1), d.keys[n - 1], d.m[d.keys[n - 1]]) == Prefix(d, n)
  {
    var k := d.keys[n - 1];
    assert k !in d.keys[..n - 1];
    assert d.keys[..n] == d.keys[..n - 1] + [k];
  }

  /** Lines that spell out the first `n` entries of `d`, in order, parse
      to those entries. */
  lemma {:induction false} ParseOfPairs(ls: seq<Line>, d: Data, n: nat)
    requires Valid(d) && n <= |d.keys| && n <= |ls|
    requires forall i | 0 <= i < n :: ls[i] == Pair(d.keys[i], d.m[d.keys[i]])
    ensures ParseOf(ls, n) == Parsed(Prefix(d, n))
  {
    if n > 0 {
      var before := Prefix(d, n - 1);
      ParseOfPairs(ls, d, n - 1);
      var k := d.keys[n - 1];
      assert ls[n - 1] == Pair(k, d.m[k]);
      ParseOfNext(ls, n, before);
      PrefixNext(d, n);
    }
  }

  /** A line that unpacks adds its pair to the dictionary parsed so far. */
  lemma ParseOfNext(ls: seq<Line>, n: nat, d: Data)
    requires 0 < n <= |ls| && ParseOf(ls, n - 1) == Parsed(d) && ls[n - 1].Pair?
    ensures ParseOf(ls, n) == Parsed(Put(d, ls[n - 1].name, ls[n - 1].value))
  {
  }

  /** Writing a dictionary out as `name:value` lines and scanning them gives
      it back, when no name holds a colon and no name or value has white
      space at either end. */
  lemma RenderRoundTrip(d: Data)
    requires Valid(d)
    requires forall k | k in d.m :: ':' !in k && Strip(k) == k && Strip(d.m[k]) == d.m[k]
    ensures ScanData(Some(Render(d))) == Parsed(d)
  {
    var ls := LinesOf(Render(d));
    forall i | 0 <= i < |d.keys| ensures ls[i] == Pair(d.keys[i], d.m[d.keys[i]]) {
      RenderLine(d, i);
    }
    ParseOfPairs(ls, d, |d.keys|);
    PrefixAll(d);
  }

  /** All the entries of `d` are `d`. */
  lemma PrefixAll(d: Data)
    requires Valid(d)
    ensures Prefix(d, |d.keys|) == d
  {
    ListedKeysComplete(d);
    assert d.keys[..|d.keys|] == d.keys;
  }

  /** `scan_d`, with a missing node giving the empty dictionary. */
  method ScanD(data: Option<seq<string>>) returns (r: Outcome)
    ensures r == ScanData(data)
  {
    if data.None? {
      return Parsed(Empty());
    }
    r := ScanLines(data.value);
  }

  /** The loop of `scan_d` over the lines of the node, each split at its
      first colon. */
  method ScanLines(lines: seq<string>) returns (r: Outcome)
    ensures r == ParseOf(LinesOf(lines), |lines|)
  {
    var ls := LinesOf(lines);
    var d := Empty();
    var i := 0;
    while i < |ls|
      invariant i <= |ls|
      invariant ParseOf(ls, i) == Parsed(d)
    {
      match ls[i]
      case Unpackable =>
        ParseOfStops(ls, i, |ls|);
        return NoColon(i);
      case Pair(name, value) =>
        ParseOfNext(ls, i + 1, d);
        d := Put(d, name, value);
      i := i + 1;
    }
    return Parsed(d);
  }
}
