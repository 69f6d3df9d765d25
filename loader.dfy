/**
 * The CSV part of `FloridaInsurance.loadData`: the header row becomes a
 * column-name → position map, the three required columns are resolved, and
 * every later line is split, filtered and parsed into an `InsuranceEntry`.
 * The archive is already decoded into its lines; `Double.parseDouble` is the
 * parameter `parse`, a partial function giving an exact decimal.
 */
module Loader {
  import opened Wrappers
  import opened JavaStrings

  /** `InsuranceEntry`: a county and the insured values for 2011 and 2012. */
  datatype Entry = Entry(county: string, tiv2011: real, tiv2012: real)

  /** Positions of the three required columns. */
  datatype Columns = Columns(county: nat, tiv2011: nat, tiv2012: nat)

  /**
   * Why loading aborts: the `IOException` for a header without a required
   * column, or the `ArrayIndexOutOfBoundsException` of reading the county
   * field of a row that passed the length filter but is too short for it.
   */
  datatype LoadError = MissingColumns | CountyIndexOutOfBounds(index: nat, length: nat)

  /** What becomes of one data line. */
  datatype RowOutcome =
    | TooShort
    | CountyMissing(index: nat, length: nat)
    | Unparsable
    | Parsed(entry: Entry)

  function Max(a: nat, b: nat): nat {
    if a < b then b else a
  }

  /** `Map.getOrDefault`. */
  function GetOrDefault(m: map<string, nat>, key: string, default: int): int {
    if key in m then m[key] else default
  }

  /** The header cells as the loop stores them: `headers[i].trim()` for each `i`. */
  function HeaderNames(headers: seq<string>): (names: seq<string>)
    ensures |names| == |headers|
    decreases |headers|
  {
    if |headers| == 0 then []
    else HeaderNames(headers[..|headers| - 1]) + [Trim(headers[|headers| - 1])]
  }

  lemma {:induction false} HeaderNamesAt(headers: seq<string>, i: int)
    requires 0 <= i < |headers|
    ensures HeaderNames(headers)[i] == Trim(headers[i])
    decreases |headers|
  {
    if i < |headers| - 1 {
      HeaderNamesAt(headers[..|headers| - 1], i);
    }
  }

  /** Each name to its position, a later position overwriting an earlier one, as successive `put` calls do. */
  function PositionMap(names: seq<string>): map<string, nat>
    decreases |names|
  {
    if |names| == 0 then map[]
    else PositionMap(names[..|names| - 1])[names[|names| - 1] := |names| - 1]
  }

  /** The column map `loadData` builds from the split header row. */
  function ColumnMap(headers: seq<string>): map<string, nat>
  {
    PositionMap(HeaderNames(headers))
  }

  /** The header loop of `loadData`: `colMap.put(headers[i].trim(), i)` for every `i` in order. */
  method BuildColumnMap(headers: seq<string>) returns (colMap: map<string, nat>)
    ensures colMap == ColumnMap(headers)
  {
    colMap := map[];
    for i := 0 to |headers|
      invariant colMap == PositionMap(HeaderNames(headers[..i]))
    {
      assert headers[..i + 1][..i] == headers[..i];
      colMap := colMap[Trim(headers[i]) := i];
    }
    assert headers[..|headers|] == headers;
  }

  /** A name is in the position map exactly when it occurs, and it maps to its LAST occurrence. */
  lemma {:induction false} PositionMapLastWins(names: seq<string>, name: string)
    ensures name in PositionMap(names) <==> name in names
    ensures name in PositionMap(names) ==>
      && PositionMap(names)[name] < |names|
      && names[PositionMap(names)[name]] == name
      && forall j :: PositionMap(names)[name] < j < |names| ==> names[j] != name
    decreases |names|
  {
    if |names| > 0 {
      var n := |names|;
      var init := names[..n - 1];
      PositionMapLastWins(init, name);
      if names[n - 1] != name {
        assert names == init + [names[n - 1]];
        if name in PositionMap(init) {
          var p := PositionMap(init)[name];
          assert names[p] == init[p];
          assert PositionMap(names)[name] == p;
          forall j | p < j < n
            ensures names[j] != name
          {
            if j < n - 1 {
              assert names[j] == init[j];
            }
          }
        }
      }
    }
  }

  /**
   * Over the header cells themselves: a name is a key of the column map
   * exactly when some cell trims to it, and its position is the LAST such cell.
   */
  lemma ColumnMapLastWins(headers: seq<string>, name: string)
    ensures name in ColumnMap(headers) <==> exists i :: 0 <= i < |headers| && Trim(headers[i]) == name
    ensures name in ColumnMap(headers) ==>
      && ColumnMap(headers)[name] < |headers|
      && Trim(headers[ColumnMap(headers)[name]]) == name
      && forall j :: ColumnMap(headers)[name] < j < |headers| ==> Trim(headers[j]) != name
  {
    var names := HeaderNames(headers);
    PositionMapLastWins(names, name);
    forall i | 0 <= i < |headers|
      ensures names[i] == Trim(headers[i])
    {
      HeaderNamesAt(headers, i);
    }
  }

  /** A header row names the three required columns (after trimming). */
  predicate HasRequiredColumns(headers: seq<string>) {
    forall name :: name in ["county", "tiv_2011", "tiv_2012"] ==> name in HeaderNames(headers)
  }

  /**
   * One data line of the stream pipeline: split on ","; dropped by the length
   * filter unless it has more fields than the larger of the two value
   * positions; then the county field is read (failing when the row is too
   * short for it) and trimmed, and both values are parsed, the row being
   * dropped when either parse fails.
   */
  function ParseRow(line: string, cols: Columns, parse: string -> Option<real>): RowOutcome
  {
    var fields := JavaSplit(line, ',');
    if |fields| <= Max(cols.tiv2012, cols.tiv2011) then TooShort
    else if cols.county >= |fields| then CountyMissing(cols.county, |fields|)
    else
      var county := Trim(fields[cols.county]);
      match (parse(fields[cols.tiv2011]), parse(fields[cols.tiv2012]))
      case (Some(v2011), Some(v2012)) => Parsed(Entry(county, v2011, v2012))
      case _ => Unparsable
  }

  /** The stream of per-line outcomes, one for each data line, in order. */
  function RowOutcomes(rows: seq<string>, cols: Columns, parse: string -> Option<real>): (os: seq<RowOutcome>)
    ensures |os| == |rows|
    ensures forall i :: 0 <= i < |rows| ==> os[i] == ParseRow(rows[i], cols, parse)
  {
    seq(|rows|, i requires 0 <= i < |rows| => ParseRow(rows[i], cols, parse))
  }

  /**
   * `filter(Objects::nonNull).collect(toList())` over the outcomes: parsed
   * entries are kept in order, dropped lines vanish, and the first line whose
   * county field is missing aborts the whole collection.
   */
  function Collect(os: seq<RowOutcome>): Result<seq<Entry>, LoadError>
  {
    if |os| == 0 then Success([])
    else
      match os[0]
      case CountyMissing(i, n) => Failure(CountyIndexOutOfBounds(i, n))
      case Parsed(e) =>
        (match Collect(os[1..])
         case Success(es) => Success([e] + es)
         case Failure(err) => Failure(err))
      case _ => Collect(os[1..])
  }

  /** The data lines of `loadData`, from `br.lines()` to `collect`. */
  function ParseRows(rows: seq<string>, cols: Columns, parse: string -> Option<real>): Result<seq<Entry>, LoadError>
  {
    Collect(RowOutcomes(rows, cols, parse))
  }

  /** `ix` picks, in increasing order, exactly the positions of `os` that parsed, and `es` holds their entries. */
  predicate Selects(os: seq<RowOutcome>, ix: seq<nat>, es: seq<Entry>) {
    && |ix| == |es|
    && (forall k {:trigger ix[k]} :: 0 <= k < |ix| ==> ix[k] < |os| && os[ix[k]] == Parsed(es[k]))
    && (forall k, l :: 0 <= k < l < |ix| ==> ix[k] < ix[l])
    && (forall i :: 0 <= i < |os| && os[i].Parsed? ==> i in ix)
  }

  /** Combining the results of two consecutive stretches of lines. */
  function Then(first: Result<seq<Entry>, LoadError>, second: Result<seq<Entry>, LoadError>): Result<seq<Entry>, LoadError>
  {
    match first
    case Failure(err) => Failure(err)
    case Success(es) =>
      match second
      case Failure(err) => Failure(err)
      case Success(fs) => Success(es + fs)
  }

  /** Collecting succeeds exactly when no line lacks its county field. */
  lemma {:induction false} CollectSucceedsIff(os: seq<RowOutcome>)
    ensures Collect(os).Success? <==> forall i :: 0 <= i < |os| ==> !os[i].CountyMissing?
    decreases |os|
  {
    if |os| > 0 {
      CollectSucceedsIff(os[1..]);
      assert forall i :: 1 <= i < |os| ==> os[i] == os[1..][i - 1];
    }
  }

  /** A failure is the out-of-bounds error of the FIRST line that lacks its county field. */
  lemma {:induction false} CollectFailsAtFirst(os: seq<RowOutcome>)
    requires Collect(os).Failure?
    ensures Collect(os).error.CountyIndexOutOfBounds?
    ensures exists i ::
              && 0 <= i < |os|
              && os[i] == CountyMissing(Collect(os).error.index, Collect(os).error.length)
              && (forall j :: 0 <= j < i ==> !os[j].CountyMissing?)
    decreases |os|
  {
    var err := Collect(os).error;
    if os[0].CountyMissing? {
      assert os[0] == CountyMissing(err.index, err.length);
    } else {
      var tail := os[1..];
      CollectFailsAtFirst(tail);
      var i :| 0 <= i < |tail| && tail[i] == CountyMissing(err.index, err.length)
        && forall j :: 0 <= j < i ==> !tail[j].CountyMissing?;
      assert os[i + 1] == tail[i];
      assert forall j :: 1 <= j < i + 1 ==> os[j] == tail[j - 1];
    }
  }

  /** The positions of a selection from `os[1..]`, as positions of `os`. */
  lemma Shift(os: seq<RowOutcome>, ix': seq<nat>, es': seq<Entry>) returns (shifted: seq<nat>)
    requires |os| > 0 && Selects(os[1..], ix', es')
    ensures |shifted| == |es'|
    ensures forall k {:trigger shifted[k]} :: 0 <= k < |shifted| ==> 1 <= shifted[k] < |os| && os[shifted[k]] == Parsed(es'[k])
    ensures forall k, l :: 0 <= k < l < |shifted| ==> shifted[k] < shifted[l]
    ensures forall i :: 1 <= i < |os| && os[i].Parsed? ==> i in shifted
  {
    var tail := os[1..];
    shifted := seq(|ix'|, k requires 0 <= k < |ix'| => ix'[k] + 1);
    forall k | 0 <= k < |shifted|
      ensures 1 <= shifted[k] < |os| && os[shifted[k]] == Parsed(es'[k])
    {
      assert os[shifted[k]] == tail[ix'[k]];
    }
    forall i | 1 <= i < |os| && os[i].Parsed?
      ensures i in shifted
    {
      assert tail[i - 1] == os[i];
      var k :| 0 <= k < |ix'| && ix'[k] == i - 1;
      assert shifted[k] == i;
    }
  }

  /** A first outcome that is not an entry leaves the selection as it was, shifted by one. */
  lemma SelectsSkipFirst(os: seq<RowOutcome>, ix': seq<nat>, es': seq<Entry>) returns (ix: seq<nat>)
    requires |os| > 0 && !os[0].Parsed? && Selects(os[1..], ix', es')
    ensures Selects(os, ix, es')
  {
    ix := Shift(os, ix', es');
  }

  /** A first outcome that is an entry is selected first, ahead of the shifted selection. */
  lemma SelectsKeepFirst(os: seq<RowOutcome>, ix': seq<nat>, es': seq<Entry>) returns (ix: seq<nat>)
    requires |os| > 0 && os[0].Parsed? && Selects(os[1..], ix', es')
    ensures Selects(os, ix, [os[0].entry] + es')
  {
    var shifted := Shift(os, ix', es');
    ix := [0] + shifted;
    var es := [os[0].entry] + es';
    forall k | 0 <= k < |ix|
      ensures ix[k] < |os| && os[ix[k]] == Parsed(es[k])
    {
      if k > 0 {
        assert ix[k] == shifted[k - 1] && es[k] == es'[k - 1];
      }
    }
    forall k, l | 0 <= k < l < |ix|
      ensures ix[k] < ix[l]
    {
      assert ix[l] == shifted[l - 1];
      if k > 0 {
        assert ix[k] == shifted[k - 1];
      }
    }
    forall i | 0 <= i < |os| && os[i].Parsed?
      ensures i in ix
    {
      if i > 0 {
        assert i in shifted;
        var k :| 0 <= k < |shifted| && shifted[k] == i;
        assert ix[k + 1] == i;
      }
    }
  }

  /**
   * A successful collection is an order-preserving subsequence of the lines'
   * outcomes that holds every parsed entry and nothing else.
   */
  lemma {:induction false} CollectKeepsParsed(os: seq<RowOutcome>)
    requires Collect(os).Success?
    ensures exists ix :: Selects(os, ix, Collect(os).value)
    decreases |os|
  {
    if |os| == 0 {
      assert Selects(os, [], []);
    } else {
      var tail := os[1..];
      CollectKeepsParsed(tail);
      var ix' :| Selects(tail, ix', Collect(tail).value);
      if os[0].Parsed? {
        var ix := SelectsKeepFirst(os, ix', Collect(tail).value);
      } else {
        var ix := SelectsSkipFirst(os, ix', Collect(tail).value);
      }
    }
  }

  /** Collecting consecutive stretches of lines is collecting each and combining. */
  lemma {:induction false} CollectAppend(a: seq<RowOutcome>, b: seq<RowOutcome>)
    ensures Collect(a + b) == Then(Collect(a), Collect(b))
    decreases |a|
  {
    if |a| > 0 {
      assert (a + b)[1..] == a[1..] + b;
      assert (a + b)[0] == a[0];
      CollectAppend(a[1..], b);
      if a[0].Parsed? && Collect(a[1..]).Success? && Collect(b).Success? {
        assert [a[0].entry] + (Collect(a[1..]).value + Collect(b).value)
            == ([a[0].entry] + Collect(a[1..]).value) + Collect(b).value;
      }
    } else {
      assert a + b == b;
      match Collect(b)
      case Success(fs) => assert [] + fs == fs;
      case Failure(_) =>
    }
  }

  /** A line dropped by the length filter or by a failed parse changes nothing and raises nothing. */
  lemma DroppedRowInvisible(a: seq<RowOutcome>, o: RowOutcome, b: seq<RowOutcome>)
    requires o.TooShort? || o.Unparsable?
    ensures Collect(a + [o] + b) == Collect(a + b)
  {
    CollectAppend(a, [o] + b);
    CollectAppend(a, b);
    assert ([o] + b)[1..] == b;
    assert a + [o] + b == a + ([o] + b);
  }

  /** `loadData` after the archive is opened: header, column resolution, data lines. */
  function Load(lines: seq<string>, parse: string -> Option<real>): Result<seq<Entry>, LoadError>
  {
    if |lines| == 0 then Success([])
    else
      var colMap := ColumnMap(JavaSplit(lines[0], ','));
      var countyIdx := GetOrDefault(colMap, "county", -1);
      var tiv2011Idx := GetOrDefault(colMap, "tiv_2011", -1);
      var tiv2012Idx := GetOrDefault(colMap, "tiv_2012", -1);
      if countyIdx == -1 || tiv2011Idx == -1 || tiv2012Idx == -1 then Failure(MissingColumns)
      else ParseRows(lines[1..], Columns(countyIdx, tiv2011Idx, tiv2012Idx), parse)
  }

  /** `loadData` as the source writes it, with its mutable `entries` list and header loop. */
  method LoadData(lines: seq<string>, parse: string -> Option<real>) returns (r: Result<seq<Entry>, LoadError>)
    ensures r == Load(lines, parse)
  {
    var entries: seq<Entry> := [];
    if |lines| == 0 {
      return Success(entries);
    }
    var headers := JavaSplit(lines[0], ',');
    var colMap := BuildColumnMap(headers);
    var countyIdx := GetOrDefault(colMap, "county", -1);
    var tiv2011Idx := GetOrDefault(colMap, "tiv_2011", -1);
    var tiv2012Idx := GetOrDefault(colMap, "tiv_2012", -1);
    if countyIdx == -1 || tiv2011Idx == -1 || tiv2012Idx == -1 {
      return Failure(MissingColumns);
    }
    var parsed := ParseRows(lines[1..], Columns(countyIdx, tiv2011Idx, tiv2012Idx), parse);
    if parsed.Failure? {
      return Failure(parsed.error);
    }
    entries := parsed.value;
    r := Success(entries);
  }

  /** The columns `loadData` resolves from a header row that names all three: the last cell naming each. */
  function ResolvedColumns(headers: seq<string>): (cols: Columns)
    requires HasRequiredColumns(headers)
    ensures cols.county < |headers| && HeaderNames(headers)[cols.county] == "county"
    ensures cols.tiv2011 < |headers| && HeaderNames(headers)[cols.tiv2011] == "tiv_2011"
    ensures cols.tiv2012 < |headers| && HeaderNames(headers)[cols.tiv2012] == "tiv_2012"
  {
    var names := HeaderNames(headers);
    PositionMapLastWins(names, "county");
    PositionMapLastWins(names, "tiv_2011");
    PositionMapLastWins(names, "tiv_2012");
    var m := ColumnMap(headers);
    Columns(m["county"], m["tiv_2011"], m["tiv_2012"])
  }

  /**
   * No header line: no entries and no error. A header without one of the
   * three required names: `MissingColumns`. Otherwise the data lines are
   * parsed against the resolved columns.
   */
  lemma LoadOutcome(lines: seq<string>, parse: string -> Option<real>)
    ensures |lines| == 0 ==> Load(lines, parse) == Success([])
    ensures |lines| > 0 && !HasRequiredColumns(JavaSplit(lines[0], ',')) ==>
      Load(lines, parse) == Failure(MissingColumns)
    ensures |lines| > 0 && HasRequiredColumns(JavaSplit(lines[0], ',')) ==>
      Load(lines, parse) == ParseRows(lines[1..], ResolvedColumns(JavaSplit(lines[0], ',')), parse)
  {
    if |lines| > 0 {
      var names := HeaderNames(JavaSplit(lines[0], ','));
      PositionMapLastWins(names, "county");
      PositionMapLastWins(names, "tiv_2011");
      PositionMapLastWins(names, "tiv_2012");
    }
  }

  /**
   * How one line fares: the length filter looks only at the two value
   * columns; a line past it but too short for the county column aborts;
   * a parsed line holds the trimmed county and both parsed values.
   */
  lemma ParseRowOutcome(line: string, cols: Columns, parse: string -> Option<real>)
    ensures var fields := JavaSplit(line, ',');
      && (ParseRow(line, cols, parse).TooShort? <==> |fields| <= Max(cols.tiv2011, cols.tiv2012))
      && (ParseRow(line, cols, parse).CountyMissing? <==> Max(cols.tiv2011, cols.tiv2012) < |fields| <= cols.county)
      && (ParseRow(line, cols, parse).Unparsable? <==>
            && Max(cols.tiv2011, cols.tiv2012) < |fields| && cols.county < |fields|
            && (parse(fields[cols.tiv2011]).None? || parse(fields[cols.tiv2012]).None?))
      && (ParseRow(line, cols, parse).Parsed? ==>
            && cols.county < |fields|
            && ParseRow(line, cols, parse).entry.county == Trim(fields[cols.county])
            && IsTrimmed(ParseRow(line, cols, parse).entry.county)
            && ',' !in ParseRow(line, cols, parse).entry.county
            && parse(fields[cols.tiv2011]) == Some(ParseRow(line, cols, parse).entry.tiv2011)
            && parse(fields[cols.tiv2012]) == Some(ParseRow(line, cols, parse).entry.tiv2012))
  {
    var fields := JavaSplit(line, ',');
    var o := ParseRow(line, cols, parse);
    if o.Parsed? {
      TrimSpec(fields[cols.county]);
      if ',' in o.entry.county {
        TrimWithin(fields[cols.county], ',');
      }
    }
  }

  /**
   * A successful load keeps, in file order, exactly the data lines that
   * parsed, and every entry's county is trimmed and free of commas; since the
   * reader cuts the input at line breaks, no county holds one either.
   */
  lemma LoadedEntries(lines: seq<string>, parse: string -> Option<real>)
    requires |lines| > 0 && HasRequiredColumns(JavaSplit(lines[0], ','))
    requires Load(lines, parse).Success?
    ensures exists ix ::
      Selects(RowOutcomes(lines[1..], ResolvedColumns(JavaSplit(lines[0], ',')), parse), ix, Load(lines, parse).value)
    ensures forall e :: e in Load(lines, parse).value ==> IsTrimmed(e.county) && ',' !in e.county
    ensures (forall line :: line in lines ==> '\n' !in line) ==>
      forall e :: e in Load(lines, parse).value ==> '\n' !in e.county
  {
    var cols := ResolvedColumns(JavaSplit(lines[0], ','));
    var rows := lines[1..];
    var os := RowOutcomes(rows, cols, parse);
    var es := Load(lines, parse).value;
    LoadOutcome(lines, parse);
    CollectKeepsParsed(os);
    var ix :| Selects(os, ix, es);
    forall e | e in es
      ensures IsTrimmed(e.county) && ',' !in e.county
    {
      var k :| 0 <= k < |es| && es[k] == e;
      ParseRowOutcome(rows[ix[k]], cols, parse);
    }
    if forall line :: line in lines ==> '\n' !in line {
      forall e | e in es
        ensures '\n' !in e.county
      {
        var k :| 0 <= k < |es| && es[k] == e;
        var row := rows[ix[k]];
        ParseRowOutcome(row, cols, parse);
        assert row == lines[1 + ix[k]];
        if '\n' in e.county {
          var field := JavaSplit(row, ',')[cols.county];
          TrimWithin(field, '\n');
          JavaSplitWithin(row, ',', cols.county, '\n');
        }
      }
    }
  }

  /**
   * The length filter ignores the county column: once the header resolves,
   * any data line with more fields than both value positions but no field at
   * the county position (the county column lies further right) makes loading
   * fail with the out-of-bounds error instead of being dropped.
   */
  lemma CountyBeyondFilterAborts(lines: seq<string>, parse: string -> Option<real>, i: int)
    requires |lines| > 0 && HasRequiredColumns(JavaSplit(lines[0], ','))
    requires 1 <= i < |lines|
    requires var cols := ResolvedColumns(JavaSplit(lines[0], ','));
      Max(cols.tiv2011, cols.tiv2012) < |JavaSplit(lines[i], ',')| <= cols.county
    ensures Load(lines, parse).Failure? && Load(lines, parse).error.CountyIndexOutOfBounds?
  {
    var cols := ResolvedColumns(JavaSplit(lines[0], ','));
    LoadOutcome(lines, parse);
    var os := RowOutcomes(lines[1..], cols, parse);
    ParseRowOutcome(lines[i], cols, parse);
    assert os[i - 1] == ParseRow(lines[i], cols, parse);
    CollectSucceedsIff(os);
    CollectFailsAtFirst(os);
  }
}
