/** The nearby-search loops over a grid. The remote service is not called:
    `replies[k]` is the reply it gave for grid point `k`, whose body is the list
    of `place_id`s of the reply's `results`. */
module Collector {
  import opened Wrappers
  import opened Status
  import opened Grid
  import opened Tokens
  import opened Unique
  import opened IdFile

  type NearbyReply = Reply<seq<string>>

  /** Reply `k` is the first one `request_check` rejects. */
  predicate FirstRejected<P>(replies: seq<Reply<P>>, k: int) {
    && 0 <= k < |replies|
    && !Accepted(replies[k].status)
    && forall m :: 0 <= m < k ==> Accepted(replies[m].status)
  }

  /** Reply `k` is the first one `request_check` accepts. */
  predicate FirstAccepted<P>(replies: seq<Reply<P>>, k: int) {
    && 0 <= k < |replies|
    && Accepted(replies[k].status)
    && forall m :: 0 <= m < k ==> !Accepted(replies[m].status)
  }

  lemma FirstRejectedShift<P>(replies: seq<Reply<P>>, k: int)
    requires |replies| > 0 && Accepted(replies[0].status)
    requires FirstRejected(replies[1..], k)
    ensures FirstRejected(replies, k + 1)
  {
  }

  /** The `list_of_id` the fail-fast loop builds: every id of every reply in
      order, or the error of the first rejected reply. */
  function CollectIds(replies: seq<NearbyReply>): (r: Result<seq<string>, RequestError>)
    ensures r.Success? <==> forall k :: 0 <= k < |replies| ==> Accepted(replies[k].status)
    ensures r.Failure? ==> exists k :: FirstRejected(replies, k) && RequestCheck(replies[k].status) == Some(r.error)
    ensures r.Success? ==> forall id :: id in r.value <==> exists k :: 0 <= k < |replies| && id in replies[k].body
    decreases |replies|
  {
    if |replies| == 0 then Success([])
    else
      match RequestCheck(replies[0].status)
      case Some(e) =>
        assert FirstRejected(replies, 0);
        Failure(e)
      case None =>
        match CollectIds(replies[1..])
        case Failure(e) =>
          var k :| FirstRejected(replies[1..], k) && RequestCheck(replies[1..][k].status) == Some(e);
          FirstRejectedShift(replies, k);
          Failure(e)
        case Success(rest) =>
          assert forall id :: id in replies[0].body + rest <==>
            exists k :: 0 <= k < |replies| && id in replies[k].body
          by {
            forall id ensures id in replies[0].body + rest ==>
              exists k :: 0 <= k < |replies| && id in replies[k].body
            {
              if id in rest {
                var k :| 0 <= k < |replies[1..]| && id in replies[1..][k].body;
                assert id in replies[k + 1].body;
              }
            }
            forall id | exists k :: 0 <= k < |replies| && id in replies[k].body
              ensures id in replies[0].body + rest
            {
              var k :| 0 <= k < |replies| && id in replies[k].body;
              if k > 0 {
                assert id in replies[1..][k - 1].body;
              }
            }
          }
          Success(replies[0].body + rest)
  }

  /** Every id some reply returned. */
  ghost function ReturnedIds(replies: seq<NearbyReply>): set<string> {
    set k, id | 0 <= k < |replies| && id in replies[k].body :: id
  }

  /** `get_ids_from_grid`: the distinct ids over all grid points, or the
      `RequestError` of the first point whose reply is rejected (no partial
      result). */
  function GetIdsFromGrid(replies: seq<NearbyReply>): (r: Result<seq<string>, RequestError>)
    ensures r.Failure? <==> exists k :: 0 <= k < |replies| && !Accepted(replies[k].status)
    ensures r.Failure? ==> exists k :: FirstRejected(replies, k) && RequestCheck(replies[k].status) == Some(r.error)
    ensures r.Success? ==> NoDups(r.value)
    ensures r.Success? ==> forall id :: id in r.value <==> exists k :: 0 <= k < |replies| && id in replies[k].body
  {
    match CollectIds(replies)
    case Failure(e) => Failure(e)
    case Success(ids) => Success(Dedupe(ids))
  }

  /** Duplicates across points collapse: on success there is one entry per
      distinct id returned. */
  lemma GetIdsFromGridCount(replies: seq<NearbyReply>)
    requires GetIdsFromGrid(replies).Success?
    ensures |GetIdsFromGrid(replies).value| == |ReturnedIds(replies)|
  {
    var u := GetIdsFromGrid(replies).value;
    NoDupsCardinality(u);
    assert Elements(u) == ReturnedIds(replies) by {
      forall id ensures id in Elements(u) <==> id in ReturnedIds(replies) {
        if id in ReturnedIds(replies) {
          var k :| 0 <= k < |replies| && id in replies[k].body;
        }
      }
    }
  }

  /** What `ids_to_file_from_grid` leaves behind: its return value (`None`
      when the loop runs to the end without returning) and the lines of the
      file, which it truncates first. */
  datatype FileRun = FileRun(returned: Option<seq<LatLon>>, lines: seq<string>)

  /** No reply in `replies[from..to]` is accepted. */
  predicate NoneAccepted<P>(replies: seq<Reply<P>>, from: int, to: int)
    requires 0 <= from && to <= |replies|
  {
    forall m :: from <= m < to ==> !Accepted(replies[m].status)
  }

  /** The loop from grid point `k` on, with `errors` the error points so far. */
  function ScanFrom(grid: seq<LatLon>, replies: seq<NearbyReply>, k: nat, errors: seq<LatLon>): FileRun
    requires |replies| == |grid| && k <= |grid|
    decreases |grid| - k
  {
    if k == |grid| then FileRun(None, [])
    else if RequestCheck(replies[k].status).Some? then
      ScanFrom(grid, replies, k + 1, errors + [grid[k]])
    else
      FileRun(Some(errors), TagLines(k, replies[k].body))
  }

  /** From point `k`, when `s` is the first accepted point, the loop returns
      the error points so far plus the points from `k` up to `s`, and the file
      holds the lines of point `s` only. */
  lemma {:induction false} ScanFromStops(grid: seq<LatLon>, replies: seq<NearbyReply>, k: nat, errors: seq<LatLon>, s: nat)
    requires |replies| == |grid| && k <= s < |grid|
    requires Accepted(replies[s].status) && NoneAccepted(replies, k, s)
    ensures ScanFrom(grid, replies, k, errors) == FileRun(Some(errors + grid[k..s]), TagLines(s, replies[s].body))
    decreases s - k
  {
    if k == s {
      assert errors + grid[k..k] == errors;
    } else {
      assert !Accepted(replies[k].status);
      ScanFromStops(grid, replies, k + 1, errors + [grid[k]], s);
      assert grid[k..s] == [grid[k]] + grid[k + 1..s];
      assert errors + [grid[k]] + grid[k + 1..s] == errors + grid[k..s];
    }
  }

  /** From point `k`, when no later point is accepted, the loop runs to its end:
      nothing is returned and nothing is written. */
  lemma {:induction false} ScanFromNone(grid: seq<LatLon>, replies: seq<NearbyReply>, k: nat, errors: seq<LatLon>)
    requires |replies| == |grid| && k <= |grid|
    requires NoneAccepted(replies, k, |grid|)
    ensures ScanFrom(grid, replies, k, errors) == FileRun(None, [])
    decreases |grid| - k
  {
    if k < |grid| {
      assert !Accepted(replies[k].status);
      ScanFromNone(grid, replies, k + 1, errors + [grid[k]]);
    }
  }

  /** `ids_to_file_from_grid` as written: the `return` sits inside the loop,
      so it returns right after the first point whose reply is accepted. The
      error points are the grid points before it, and the file holds that
      point's ids only, each tagged with its index. When no reply is accepted
      the loop ends without a `return`: the result is `None` and the file is
      left empty. */
  function IdsToFileFromGrid(grid: seq<LatLon>, replies: seq<NearbyReply>): (run: FileRun)
    requires |replies| == |grid|
    ensures run.returned.Some? <==> exists s :: 0 <= s < |grid| && Accepted(replies[s].status)
    ensures forall s :: FirstAccepted(replies, s) ==>
      && run.returned == Some(grid[..s])
      && run.lines == TagLines(s, replies[s].body)
    ensures run.returned.None? ==> run.lines == []
  {
    if exists s :: 0 <= s < |grid| && Accepted(replies[s].status) then
      var first := FirstSuccess(replies);
      ScanFromStops(grid, replies, 0, [], first);
      assert [] + grid[0..first] == grid[..first];
      assert forall s :: FirstAccepted(replies, s) ==> s == first;
      ScanFrom(grid, replies, 0, [])
    else
      ScanFromNone(grid, replies, 0, []);
      ScanFrom(grid, replies, 0, [])
  }

  /** The index of the first accepted reply, when there is one. */
  function FirstSuccess<P>(replies: seq<Reply<P>>): (s: nat)
    requires exists s :: 0 <= s < |replies| && Accepted(replies[s].status)
    ensures FirstAccepted(replies, s)
    decreases |replies|
  {
    if Accepted(replies[0].status) then 0
    else
      assert exists s :: 0 <= s < |replies[1..]| && Accepted(replies[1..][s].status) by {
        var s :| 0 <= s < |replies| && Accepted(replies[s].status);
        assert replies[1..][s - 1] == replies[s];
      }
      var s := FirstSuccess(replies[1..]);
      assert forall m :: 1 <= m < s + 1 ==> replies[m] == replies[1..][m - 1];
      s + 1
  }

  /** The points before the first success all failed, and every returned
      error point is a grid point whose reply was rejected. */
  lemma ErrorPointsAllFailed(grid: seq<LatLon>, replies: seq<NearbyReply>)
    requires |replies| == |grid|
    requires exists s :: 0 <= s < |grid| && Accepted(replies[s].status)
    ensures forall p :: p in IdsToFileFromGrid(grid, replies).returned.value ==>
      exists m :: 0 <= m < |grid| && grid[m] == p && !Accepted(replies[m].status)
  {
    var s := FirstSuccess(replies);
    forall p | p in IdsToFileFromGrid(grid, replies).returned.value
      ensures exists m :: 0 <= m < |grid| && grid[m] == p && !Accepted(replies[m].status)
    {
      var m :| 0 <= m < s && grid[..s][m] == p;
    }
  }

  /** Reading back the file the as-written collector leaves gives exactly the
      ids of the first accepted point. */
  lemma ReadBackAsWritten(grid: seq<LatLon>, replies: seq<NearbyReply>, s: nat)
    requires |replies| == |grid|
    requires FirstAccepted(replies, s)
    requires forall q :: 0 <= q < |replies[s].body| ==> IsToken(replies[s].body[q])
    ensures GetUniqueIdsFromFiles([IdsToFileFromGrid(grid, replies).lines]).Success?
    ensures forall id ::
      id in GetUniqueIdsFromFiles([IdsToFileFromGrid(grid, replies).lines]).value <==> id in replies[s].body
  {
    var lines := IdsToFileFromGrid(grid, replies).lines;
    var body := replies[s].body;
    assert lines == TagLines(s, body);
    forall q | 0 <= q < |body|
      ensures WellFormed(lines[q]) && SecondToken(lines[q]) == body[q]
    {
      DecodeEncodeLine(s, body[q]);
    }
    var r := GetUniqueIdsFromFiles([lines]);
    forall id ensures id in r.value <==> id in body {
      if id in body {
        var q :| 0 <= q < |body| && body[q] == id;
        assert ReadableAt([lines], 0, q);
      }
      if id in r.value {
        var f, k :| ReadableAt([lines], f, k) && SecondToken([lines][f][k]) == id;
        assert f == 0;
      }
    }
  }

  /** Two accepted points: the as-written collector keeps the first point's
      ids and never queries the second. */
  lemma EarlyReturnDropsLaterPoints(p: LatLon, q: LatLon)
    ensures IdsToFileFromGrid([p, q], [Reply("OK", ["a"]), Reply("OK", ["b"])])
      == FileRun(Some([]), [EncodeLine(0, "a")])
  {
  }

  /** Every point rejected: the as-written collector returns `None`, not the
      list of error points. */
  lemma AllRejectedReturnsNothing(p: LatLon, q: LatLon)
    ensures IdsToFileFromGrid([p, q], [Reply("OVER_QUERY_LIMIT", ["a"]), Reply("REQUEST_DENIED", [])]).returned
      == None
  {
  }

  /** The collector without the early return: what the loop leaves after its
      first `n` points. */
  datatype FullRun = FullRun(errors: seq<LatLon>, lines: seq<string>)

  /** The grid indices below `n` whose reply `request_check` accepts (`ok`)
      or rejects (`!ok`), each once and in increasing order. */
  ghost function PointsWith(replies: seq<NearbyReply>, n: nat, ok: bool): (idx: seq<nat>)
    requires n <= |replies|
    ensures forall t :: 0 <= t < |idx| ==> idx[t] < n && Accepted(replies[idx[t]].status) == ok
    ensures forall t, u :: 0 <= t < u < |idx| ==> idx[t] < idx[u]
    ensures forall m :: m in idx <==> 0 <= m < n && Accepted(replies[m].status) == ok
    decreases n
  {
    if n == 0 then []
    else if Accepted(replies[n - 1].status) == ok then PointsWith(replies, n - 1, ok) + [n - 1]
    else PointsWith(replies, n - 1, ok)
  }

  /** The tagged lines of the points `idx`, point after point. */
  ghost function LinesOf(replies: seq<NearbyReply>, idx: seq<nat>): seq<string>
    requires forall t :: 0 <= t < |idx| ==> idx[t] < |replies|
    decreases |idx|
  {
    if |idx| == 0 then []
    else
      var last := idx[|idx| - 1];
      LinesOf(replies, idx[..|idx| - 1]) + TagLines(last, replies[last].body)
  }

  /** The lines of the points `idx` are the tagged ids of those points. */
  lemma {:induction false} LinesOfMembers(replies: seq<NearbyReply>, idx: seq<nat>)
    requires forall t :: 0 <= t < |idx| ==> idx[t] < |replies|
    ensures forall line :: line in LinesOf(replies, idx) <==>
      exists t, q :: 0 <= t < |idx| && 0 <= q < |replies[idx[t]].body|
        && line == EncodeLine(idx[t], replies[idx[t]].body[q])
    decreases |idx|
  {
    if |idx| > 0 {
      var init, last := idx[..|idx| - 1], idx[|idx| - 1];
      LinesOfMembers(replies, init);
      var tagged := TagLines(last, replies[last].body);
      forall line | line in LinesOf(replies, idx)
        ensures exists t, q ::
          0 <= t < |idx| && 0 <= q < |replies[idx[t]].body| && line == EncodeLine(idx[t], replies[idx[t]].body[q])
      {
        if line in LinesOf(replies, init) {
          var t, q :| 0 <= t < |init| && 0 <= q < |replies[init[t]].body|
            && line == EncodeLine(init[t], replies[init[t]].body[q]);
          assert idx[t] == init[t];
        } else {
          var q :| 0 <= q < |tagged| && tagged[q] == line;
          assert idx[|idx| - 1] == last;
        }
      }
      forall t, q | 0 <= t < |idx| && 0 <= q < |replies[idx[t]].body|
        ensures EncodeLine(idx[t], replies[idx[t]].body[q]) in LinesOf(replies, idx)
      {
        if t < |init| {
          assert init[t] == idx[t];
        } else {
          assert tagged[q] == EncodeLine(idx[t], replies[idx[t]].body[q]);
        }
      }
    }
  }

  /** The points listed in order are the points of the index set. */
  lemma ErrorsMembers(grid: seq<LatLon>, replies: seq<NearbyReply>, n: nat, errors: seq<LatLon>)
    requires |replies| == |grid| && n <= |grid|
    requires var bad := PointsWith(replies, n, false);
      && |errors| == |bad|
      && forall t :: 0 <= t < |bad| ==> errors[t] == grid[bad[t]]
    ensures forall p :: p in errors <==>
      exists m :: 0 <= m < n && grid[m] == p && !Accepted(replies[m].status)
  {
  }

  /** The corrected loop after its first `n` points: the error points are
      the rejected points in grid order, and the file holds the tagged lines
      of the accepted points in grid order. */
  function ScanAll(grid: seq<LatLon>, replies: seq<NearbyReply>, n: nat): (run: FullRun)
    requires |replies| == |grid| && n <= |grid|
    ensures var bad := PointsWith(replies, n, false);
      && |run.errors| == |bad|
      && forall t :: 0 <= t < |bad| ==> run.errors[t] == grid[bad[t]]
    ensures run.lines == LinesOf(replies, PointsWith(replies, n, true))
    ensures forall p :: p in run.errors <==>
      exists m :: 0 <= m < n && grid[m] == p && !Accepted(replies[m].status)
    ensures forall line :: line in run.lines <==>
      exists m, q :: 0 <= m < n && Accepted(replies[m].status) && 0 <= q < |replies[m].body|
        && line == EncodeLine(m, replies[m].body[q])
    decreases n
  {
    var run := ScanLoop(grid, replies, n);
    ErrorsMembers(grid, replies, n, run.errors);
    var good := PointsWith(replies, n, true);
    LinesOfMembers(replies, good);
    assert forall m :: m in good <==> 0 <= m < n && Accepted(replies[m].status);
    assert forall line :: line in run.lines <==>
      exists m, q :: 0 <= m < n && Accepted(replies[m].status) && 0 <= q < |replies[m].body|
        && line == EncodeLine(m, replies[m].body[q])
    by {
      forall line ensures line in run.lines ==>
        exists m, q :: 0 <= m < n && Accepted(replies[m].status) && 0 <= q < |replies[m].body|
          && line == EncodeLine(m, replies[m].body[q])
      {
        if line in run.lines {
          var t, q :| 0 <= t < |good| && 0 <= q < |replies[good[t]].body|
            && line == EncodeLine(good[t], replies[good[t]].body[q]);
          assert good[t] in good;
        }
      }
      forall m, q | 0 <= m < n && Accepted(replies[m].status) && 0 <= q < |replies[m].body|
        ensures EncodeLine(m, replies[m].body[q]) in run.lines
      {
        assert m in good;
        var t :| 0 <= t < |good| && good[t] == m;
      }
    }
    run
  }

  /** The corrected loop itself, point by point. */
  function ScanLoop(grid: seq<LatLon>, replies: seq<NearbyReply>, n: nat): (run: FullRun)
    requires |replies| == |grid| && n <= |grid|
    ensures var bad := PointsWith(replies, n, false);
      && |run.errors| == |bad|
      && forall t :: 0 <= t < |bad| ==> run.errors[t] == grid[bad[t]]
    ensures run.lines == LinesOf(replies, PointsWith(replies, n, true))
    decreases n
  {
    if n == 0 then FullRun([], [])
    else
      var prev := ScanLoop(grid, replies, n - 1);
      var k := n - 1;
      var bad, good := PointsWith(replies, n - 1, false), PointsWith(replies, n - 1, true);
      if RequestCheck(replies[k].status).Some? then
        assert PointsWith(replies, n, false) == bad + [k];
        assert PointsWith(replies, n, true) == good;
        FullRun(prev.errors + [grid[k]], prev.lines)
      else
        assert PointsWith(replies, n, false) == bad;
        assert PointsWith(replies, n, true) == good + [k];
        assert (good + [k])[..|good|] == good;
        FullRun(prev.errors, prev.lines + TagLines(k, replies[k].body))
  }

  /** `ids_to_file_from_grid` with the `return` after the loop: every point is
      queried, the error points are the rejected ones in grid order, and the
      file holds the tagged lines of every accepted point in grid order. */
  function IdsToFileFromGridFull(grid: seq<LatLon>, replies: seq<NearbyReply>): (run: FullRun)
    requires |replies| == |grid|
    ensures var bad := PointsWith(replies, |grid|, false);
      && |run.errors| == |bad|
      && forall t :: 0 <= t < |bad| ==> run.errors[t] == grid[bad[t]]
    ensures run.lines == LinesOf(replies, PointsWith(replies, |grid|, true))
    ensures forall p :: p in run.errors <==>
      exists m :: 0 <= m < |grid| && grid[m] == p && !Accepted(replies[m].status)
    ensures forall line :: line in run.lines <==>
      exists m, q :: 0 <= m < |grid| && Accepted(replies[m].status) && 0 <= q < |replies[m].body|
        && line == EncodeLine(m, replies[m].body[q])
  {
    ScanAll(grid, replies, |grid|)
  }

  /** Reading back the file of the full-grid collector gives every id of every
      accepted point, duplicates removed. */
  lemma ReadBackFull(grid: seq<LatLon>, replies: seq<NearbyReply>)
    requires |replies| == |grid|
    requires forall m, q :: 0 <= m < |replies| && 0 <= q < |replies[m].body| ==> IsToken(replies[m].body[q])
    ensures GetUniqueIdsFromFiles([IdsToFileFromGridFull(grid, replies).lines]).Success?
    ensures forall id :: id in GetUniqueIdsFromFiles([IdsToFileFromGridFull(grid, replies).lines]).value <==>
      exists m :: 0 <= m < |grid| && Accepted(replies[m].status) && id in replies[m].body
  {
    var lines := IdsToFileFromGridFull(grid, replies).lines;
    forall k | 0 <= k < |lines|
      ensures WellFormed(lines[k])
      ensures exists m :: 0 <= m < |grid| && Accepted(replies[m].status) && SecondToken(lines[k]) in replies[m].body
    {
      assert lines[k] in lines;
      var m, q :| 0 <= m < |grid| && Accepted(replies[m].status) && 0 <= q < |replies[m].body|
        && lines[k] == EncodeLine(m, replies[m].body[q]);
      DecodeEncodeLine(m, replies[m].body[q]);
    }
    var r := GetUniqueIdsFromFiles([lines]);
    forall id ensures id in r.value <==>
      exists m :: 0 <= m < |grid| && Accepted(replies[m].status) && id in replies[m].body
    {
      if id in r.value {
        var f, k :| ReadableAt([lines], f, k) && SecondToken([lines][f][k]) == id;
        assert f == 0;
      }
      if exists m :: 0 <= m < |grid| && Accepted(replies[m].status) && id in replies[m].body {
        var m :| 0 <= m < |grid| && Accepted(replies[m].status) && id in replies[m].body;
        var q :| 0 <= q < |replies[m].body| && replies[m].body[q] == id;
        var line := EncodeLine(m, id);
        assert line in lines;
        var k :| 0 <= k < |lines| && lines[k] == line;
        DecodeEncodeLine(m, id);
        assert ReadableAt([lines], 0, k);
      }
    }
  }
}
