/** `data_from_ids_to_files`: fetch the full record of every place id and
    store it in the folder under the id's name, keeping a list of the ids whose
    request failed. `replies[k]` is the place-details reply for `ids[k]`, its
    body the reply's `result`; the folder is a map from id to stored record. */
module Details {
  import opened Status

  /** The returned `error_ids` and the folder's contents afterwards. */
  datatype DetailsRun<R> = DetailsRun(errorIds: seq<string>, folder: map<string, R>)

  /** Some reply for `key` among the first `n` is accepted. */
  predicate StoredWithin<R>(ids: seq<string>, replies: seq<Reply<R>>, n: nat, key: string)
    requires |replies| == |ids| && n <= |ids|
  {
    exists k :: 0 <= k < n && ids[k] == key && Accepted(replies[k].status)
  }

  /** Reply `k` is the last accepted one for its id among the first `n`. */
  predicate LastStoreWithin<R>(ids: seq<string>, replies: seq<Reply<R>>, n: nat, k: nat)
    requires |replies| == |ids| && n <= |ids|
  {
    && k < n
    && Accepted(replies[k].status)
    && forall m :: k < m < n && ids[m] == ids[k] ==> !Accepted(replies[m].status)
  }

  /** The loop after its first `n` iterations, starting from folder `folder`. */
  function DetailsAfter<R>(ids: seq<string>, replies: seq<Reply<R>>, folder: map<string, R>, n: nat): DetailsRun<R>
    requires |replies| == |ids| && n <= |ids|
    decreases n
  {
    if n == 0 then DetailsRun([], folder)
    else
      var prev := DetailsAfter(ids, replies, folder, n - 1);
      var k := n - 1;
      if RequestCheck(replies[k].status).Some? then
        DetailsRun(prev.errorIds + [ids[k]], prev.folder)
      else
        DetailsRun(prev.errorIds, prev.folder[ids[k] := replies[k].body])
  }

  /** After `n` iterations `error_ids` holds exactly the rejected ids so far. */
  lemma {:induction false} ErrorIdsWithin<R>(ids: seq<string>, replies: seq<Reply<R>>, folder: map<string, R>, n: nat)
    requires |replies| == |ids| && n <= |ids|
    ensures forall id :: id in DetailsAfter(ids, replies, folder, n).errorIds <==>
      exists k :: 0 <= k < n && ids[k] == id && !Accepted(replies[k].status)
    decreases n
  {
    if n > 0 {
      ErrorIdsWithin(ids, replies, folder, n - 1);
    }
  }

  /** After `n` iterations the folder holds the files it had plus one per
      accepted id so far. */
  lemma {:induction false} KeysWithin<R>(ids: seq<string>, replies: seq<Reply<R>>, folder: map<string, R>, n: nat)
    requires |replies| == |ids| && n <= |ids|
    ensures forall key :: key in DetailsAfter(ids, replies, folder, n).folder <==>
      key in folder || StoredWithin(ids, replies, n, key)
    decreases n
  {
    if n > 0 {
      KeysWithin(ids, replies, folder, n - 1);
      var k := n - 1;
      if Accepted(replies[k].status) {
        assert StoredWithin(ids, replies, n, ids[k]);
      }
    }
  }

  /** After `n` iterations each stored id holds its last accepted record. */
  lemma {:induction false} ValuesWithin<R>(ids: seq<string>, replies: seq<Reply<R>>, folder: map<string, R>, n: nat)
    requires |replies| == |ids| && n <= |ids|
    ensures forall k :: 0 <= k < n && LastStoreWithin(ids, replies, n, k) ==>
      && ids[k] in DetailsAfter(ids, replies, folder, n).folder
      && DetailsAfter(ids, replies, folder, n).folder[ids[k]] == replies[k].body
    decreases n
  {
    if n > 0 {
      ValuesWithin(ids, replies, folder, n - 1);
      var run := DetailsAfter(ids, replies, folder, n);
      forall k | 0 <= k < n && LastStoreWithin(ids, replies, n, k)
        ensures ids[k] in run.folder && run.folder[ids[k]] == replies[k].body
      {
        if k < n - 1 {
          assert LastStoreWithin(ids, replies, n - 1, k);
        }
      }
    }
  }

  /** After `n` iterations a file no accepted id has touched is unchanged. */
  lemma {:induction false} UntouchedWithin<R>(ids: seq<string>, replies: seq<Reply<R>>, folder: map<string, R>, n: nat)
    requires |replies| == |ids| && n <= |ids|
    ensures forall key :: key in folder && !StoredWithin(ids, replies, n, key) ==>
      && key in DetailsAfter(ids, replies, folder, n).folder
      && DetailsAfter(ids, replies, folder, n).folder[key] == folder[key]
    decreases n
  {
    if n > 0 {
      UntouchedWithin(ids, replies, folder, n - 1);
    }
  }

  /** `data_from_ids_to_files(ids, folder, API_key)`: every id is requested; a
      rejected one goes to `error_ids` (in input order) and leaves the folder as
      it was; an accepted one has its record written under its name,
      overwriting any earlier file, so a duplicate id keeps its last accepted
      record. */
  function DataFromIdsToFiles<R>(ids: seq<string>, replies: seq<Reply<R>>, folder: map<string, R>): (run: DetailsRun<R>)
    requires |replies| == |ids|
    ensures forall id :: id in run.errorIds <==>
      exists k :: 0 <= k < |ids| && ids[k] == id && !Accepted(replies[k].status)
    ensures forall key :: key in run.folder <==> key in folder || StoredWithin(ids, replies, |ids|, key)
    ensures forall k :: 0 <= k < |ids| && LastStoreWithin(ids, replies, |ids|, k) ==>
      ids[k] in run.folder && run.folder[ids[k]] == replies[k].body
    ensures forall key :: key in folder && !StoredWithin(ids, replies, |ids|, key) ==>
      key in run.folder && run.folder[key] == folder[key]
  {
    ErrorIdsWithin(ids, replies, folder, |ids|);
    KeysWithin(ids, replies, folder, |ids|);
    ValuesWithin(ids, replies, folder, |ids|);
    UntouchedWithin(ids, replies, folder, |ids|);
    DetailsAfter(ids, replies, folder, |ids|)
  }

  /** Processing one more id either appends it to `error_ids` (rejected) or
      writes its record (accepted): the error list keeps input order. */
  lemma DetailsStep<R>(ids: seq<string>, replies: seq<Reply<R>>, folder: map<string, R>, id: string, reply: Reply<R>)
    requires |replies| == |ids|
    ensures var before := DataFromIdsToFiles(ids, replies, folder);
      var after := DataFromIdsToFiles(ids + [id], replies + [reply], folder);
      if Accepted(reply.status) then
        after == DetailsRun(before.errorIds, before.folder[id := reply.body])
      else
        after == DetailsRun(before.errorIds + [id], before.folder)
  {
    var ids' := ids + [id];
    var replies' := replies + [reply];
    DetailsPrefix(ids, replies, ids', replies', folder, |ids|);
  }

  /** The loop's first `n` iterations only see the first `n` ids. */
  lemma {:induction false} DetailsPrefix<R>(ids: seq<string>, replies: seq<Reply<R>>,
                                            ids': seq<string>, replies': seq<Reply<R>>,
                                            folder: map<string, R>, n: nat)
    requires |replies| == |ids| && |replies'| == |ids'|
    requires n <= |ids| && n <= |ids'|
    requires ids[..n] == ids'[..n] && replies[..n] == replies'[..n]
    ensures DetailsAfter(ids, replies, folder, n) == DetailsAfter(ids', replies', folder, n)
    decreases n
  {
    if n > 0 {
      assert ids[..n - 1] == ids'[..n - 1] && replies[..n - 1] == replies'[..n - 1] by {
        assert ids[..n - 1] == ids[..n][..n - 1] && ids'[..n - 1] == ids'[..n][..n - 1];
        assert replies[..n - 1] == replies[..n][..n - 1] && replies'[..n - 1] == replies'[..n][..n - 1];
      }
      DetailsPrefix(ids, replies, ids', replies', folder, n - 1);
      assert ids[n - 1] == ids[..n][n - 1] && ids'[n - 1] == ids'[..n][n - 1];
      assert replies[n - 1] == replies[..n][n - 1] && replies'[n - 1] == replies'[..n][n - 1];
    }
  }

  /** For distinct ids and an empty folder, every id ends up in exactly one of
      `error_ids` and the stored records, with nothing else in either. */
  lemma DetailsPartition<R>(ids: seq<string>, replies: seq<Reply<R>>)
    requires |replies| == |ids|
    requires forall a, b :: 0 <= a < b < |ids| ==> ids[a] != ids[b]
    ensures var run := DataFromIdsToFiles(ids, replies, map[]);
      && (forall k :: 0 <= k < |ids| ==> (ids[k] in run.errorIds <==> !Accepted(replies[k].status)))
      && (forall k :: 0 <= k < |ids| ==> (ids[k] in run.folder <==> Accepted(replies[k].status)))
      && (forall k :: 0 <= k < |ids| && Accepted(replies[k].status) ==> run.folder[ids[k]] == replies[k].body)
      && (forall id :: id in run.errorIds || id in run.folder ==> id in ids)
  {
  }

  /** The source's example: ids `[x, y]` with `x` rejected and `y` accepted
      write exactly one record, `y`'s, and return `[x]`. */
  lemma OneFailureOneRecord<R>(x: string, y: string, rx: R, ry: R)
    requires x != y
    ensures DataFromIdsToFiles([x, y], [Reply("NOT_FOUND", rx), Reply("OK", ry)], map[])
      == DetailsRun([x], map[y := ry])
  {
    var ids := [x, y];
    var replies := [Reply("NOT_FOUND", rx), Reply("OK", ry)];
    assert DetailsAfter(ids, replies, map[], 1) == DetailsRun([x], map[]);
    assert DetailsAfter(ids, replies, map[], 2) == DetailsRun([x], map[y := ry]);
  }
}
