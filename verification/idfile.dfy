/** The plain-text id list written by `ids_to_file_from_grid` and read back by
    `get_unique_ids_from_files`: one line `"<grid index> <place id>\n"` per
    place. A file is modelled as the sequence of its lines, as `readlines()`
    returns them. */
module IdFile {
  import opened Wrappers
  import opened Tokens
  import opened Unique

  /** The line written for place `placeId` found at grid point `i`. */
  function EncodeLine(i: nat, placeId: string): string {
    NatToString(i) + " " + placeId + "\n"
  }

  /** The lines one successful grid point appends, in the order of its results. */
  function TagLines(i: nat, placeIds: seq<string>): (lines: seq<string>)
    ensures |lines| == |placeIds|
    ensures forall q :: 0 <= q < |placeIds| ==> lines[q] == EncodeLine(i, placeIds[q])
    ensures (forall q :: 0 <= q < |placeIds| ==> IsToken(placeIds[q])) ==> FileIds(lines) == Success(placeIds)
  {
    var lines := seq(|placeIds|, q requires 0 <= q < |placeIds| => EncodeLine(i, placeIds[q]));
    assert (forall q :: 0 <= q < |placeIds| ==> IsToken(placeIds[q])) ==> FileIds(lines) == Success(placeIds) by {
      if forall q :: 0 <= q < |placeIds| ==> IsToken(placeIds[q]) {
        forall q | 0 <= q < |placeIds|
          ensures WellFormed(lines[q]) && SecondToken(lines[q]) == placeIds[q]
        {
          DecodeEncodeLine(i, placeIds[q]);
        }
        assert FileIds(lines).value == placeIds;
      }
    }
    lines
  }

  /** A line the reader accepts: `line.split()[1]` exists. */
  predicate WellFormed(line: string) {
    |Split(line)| >= 2
  }

  /** The id the reader takes from a line: its second whitespace field. */
  function SecondToken(line: string): (id: string)
    requires WellFormed(line)
    ensures IsToken(id)
  {
    Split(line)[1]
  }

  /** Encoding then splitting gives back the index numeral and the id, as long
      as the id is a single whitespace-free field. */
  lemma SplitEncodeLine(i: nat, placeId: string)
    requires IsToken(placeId)
    ensures Split(EncodeLine(i, placeId)) == [NatToString(i), placeId]
  {
    var d := NatToString(i);
    NumeralIsToken(i);
    assert EncodeLine(i, placeId) == d + ([' '] + (placeId + ['\n']));
    SplitToken(d, [' '] + (placeId + ['\n']));
    SplitSpace(' ', placeId + ['\n']);
    SplitToken(placeId, ['\n']);
    SplitSpace('\n', []);
  }

  /** The reader recovers exactly what the writer wrote: the place id, and
      the grid index from the first field. */
  lemma DecodeEncodeLine(i: nat, placeId: string)
    requires IsToken(placeId)
    ensures WellFormed(EncodeLine(i, placeId))
    ensures SecondToken(EncodeLine(i, placeId)) == placeId
    ensures IsDigits(Split(EncodeLine(i, placeId))[0])
    ensures ParseNat(Split(EncodeLine(i, placeId))[0]) == i
  {
    SplitEncodeLine(i, placeId);
    ParseNatToString(i);
  }

  /** An empty place id makes a line with a single field: the reader's
      `split_line[1]` fails on it. */
  lemma EmptyIdUnreadable(i: nat)
    ensures !WellFormed(EncodeLine(i, ""))
  {
    var d := NatToString(i);
    NumeralIsToken(i);
    assert EncodeLine(i, "") == d + ([' '] + ['\n']);
    SplitToken(d, [' '] + ['\n']);
    SplitSpace(' ', ['\n']);
    SplitSpace('\n', []);
  }

  /** Where the reader gave up: file `file`, line `line` (both 0-based). The
      source raises a bare `IndexError` there. */
  datatype ParseError = ParseError(file: nat, line: nat)

  predicate AllWellFormed(lines: seq<string>) {
    forall k :: 0 <= k < |lines| ==> WellFormed(lines[k])
  }

  /** The ids of one file in line order, or the index of its first malformed line. */
  function FileIds(lines: seq<string>): (r: Result<seq<string>, nat>)
    ensures r.Success? <==> AllWellFormed(lines)
    ensures r.Success? ==> |r.value| == |lines|
    ensures r.Success? ==> forall k :: 0 <= k < |lines| ==> r.value[k] == SecondToken(lines[k])
    ensures r.Failure? ==> r.error < |lines| && !WellFormed(lines[r.error])
    ensures r.Failure? ==> forall k :: 0 <= k < r.error ==> WellFormed(lines[k])
    decreases |lines|
  {
    if |lines| == 0 then Success([])
    else if !WellFormed(lines[0]) then Failure(0)
    else
      match FileIds(lines[1..])
      case Failure(k) => Failure(k + 1)
      case Success(rest) => Success([SecondToken(lines[0])] + rest)
  }

  /** The line `(f, k)` of `files` exists and is well formed. */
  predicate ReadableAt(files: seq<seq<string>>, f: int, k: int) {
    0 <= f < |files| && 0 <= k < |files[f]| && WellFormed(files[f][k])
  }

  /** Every line of every file is well formed. */
  predicate AllFilesWellFormed(files: seq<seq<string>>) {
    forall f :: 0 <= f < |files| ==> AllWellFormed(files[f])
  }

  /** The ids of all files, file after file, or the position of the first
      malformed line. */
  function FilesIds(files: seq<seq<string>>): (r: Result<seq<string>, ParseError>)
    ensures r.Success? <==> AllFilesWellFormed(files)
    ensures r.Success? ==> forall id :: id in r.value <==>
      exists f, k :: ReadableAt(files, f, k) && SecondToken(files[f][k]) == id
    ensures r.Failure? ==> r.error.file < |files| && r.error.line < |files[r.error.file]|
    ensures r.Failure? ==> !WellFormed(files[r.error.file][r.error.line])
    ensures r.Failure? ==> forall f :: 0 <= f < r.error.file ==> AllWellFormed(files[f])
    ensures r.Failure? ==> forall k :: 0 <= k < r.error.line ==> WellFormed(files[r.error.file][k])
    decreases |files|
  {
    if |files| == 0 then Success([])
    else
      match FileIds(files[0])
      case Failure(k) => Failure(ParseError(0, k))
      case Success(first) =>
        match FilesIds(files[1..])
        case Failure(e) => Failure(ParseError(e.file + 1, e.line))
        case Success(rest) =>
          Success(first + rest)
  }

  /** `get_unique_ids_from_files`: the distinct second fields of all lines of
      all files, or the first malformed line. */
  function GetUniqueIdsFromFiles(files: seq<seq<string>>): (r: Result<seq<string>, ParseError>)
    ensures r.Success? <==> AllFilesWellFormed(files)
    ensures r.Success? ==> NoDups(r.value)
    ensures r.Success? ==> forall id :: id in r.value <==>
      exists f, k :: ReadableAt(files, f, k) && SecondToken(files[f][k]) == id
    ensures r.Failure? ==> r.error.file < |files| && r.error.line < |files[r.error.file]|
    ensures r.Failure? ==> !WellFormed(files[r.error.file][r.error.line])
    ensures r.Failure? ==> forall f :: 0 <= f < r.error.file ==> AllWellFormed(files[f])
    ensures r.Failure? ==> forall k :: 0 <= k < r.error.line ==> WellFormed(files[r.error.file][k])
  {
    match FilesIds(files)
    case Failure(e) => Failure(e)
    case Success(ids) => Success(Dedupe(ids))
  }

  /** Two files, one holding `"i a"` and the other `"j a"` and `"k b"`:
      the duplicate across files collapses and `{a, b}` remains. */
  lemma DuplicatesAcrossFilesCollapse(a: string, b: string, i: nat, j: nat, k: nat)
    requires IsToken(a) && IsToken(b) && a != b
    ensures var r := GetUniqueIdsFromFiles([[EncodeLine(i, a)], [EncodeLine(j, a), EncodeLine(k, b)]]);
      r.Success? && |r.value| == 2 && Elements(r.value) == {a, b}
  {
    var la, la', lb := EncodeLine(i, a), EncodeLine(j, a), EncodeLine(k, b);
    var files := [[la], [la', lb]];
    assert SecondToken(la) == a && SecondToken(la') == a && SecondToken(lb) == b by {
      DecodeEncodeLine(i, a);
      DecodeEncodeLine(j, a);
      DecodeEncodeLine(k, b);
    }
    assert AllFilesWellFormed(files) by {
      assert AllWellFormed(files[0]) && AllWellFormed(files[1]);
    }
    var r := GetUniqueIdsFromFiles(files);
    assert a in r.value && b in r.value by {
      assert ReadableAt(files, 0, 0) && ReadableAt(files, 1, 1);
    }
    assert forall f, n :: ReadableAt(files, f, n) ==> files[f][n] in {la, la', lb};
    assert Elements(r.value) == {a, b};
    NoDupsCardinality(r.value);
  }
}
