/** `batch_compress` in main.py: every item is compressed in turn against
    the same ledger; an item whose `file_id` is missing, whose method is not
    a `CompressionMethod`, or whose call raises is logged and left out of the
    result list, and the loop goes on. */
module Batch {
  import opened Types
  import opened Ledger
  import opened Compress

  /** The values of the `CompressionMethod` enum; `auto`, `lzma`, `flif` and
      `heic` are not among them. */
  const EnumMethods: set<string> := {"ai", "gzip", "brotli", "webp", "pdf_optimize"}

  /** One entry of `items`: the `file_id` and `method` keys (None when
      absent), `sensitive_mode` (False when absent) and `profile` (None when
      absent or null, either of which ends up as "default"). */
  datatype BatchItem = BatchItem(fileId: Option<string>, methodName: Option<string>, sensitiveMode: bool,
                                 profile: Option<string>)

  /** `{"file_id": ..., "result": resp}`. */
  datatype BatchResult = BatchResult(fileId: string, result: CompressResponse)

  /** `CompressionMethod(item["method"])`: a KeyError or a ValueError unless
      the method is one of the enum's values. */
  function ParseMethod(m: Option<string>): (r: Result<string>)
    ensures r.Ok? <==> m.Some? && m.value in EnumMethods
    ensures r.Ok? ==> r.value == m.value
    ensures r.Err? ==> r.error in {MissingField, InvalidMethod}
  {
    if m.None? then Err(MissingField)
    else if m.value in EnumMethods then Ok(m.value)
    else Err(InvalidMethod)
  }

  /** One turn of the loop: the ledger afterwards, and the result appended,
      if any. A failing item leaves the ledger as it was. */
  function ItemStep(t: Table, item: BatchItem, resultsDir: string, env: Env): (out: (Table, Option<BatchResult>))
    ensures out.1.None? ==> out.0 == t
    ensures out.1.Some? <==>
      && item.fileId.Some? && ParseMethod(item.methodName).Ok?
      && CompressStep(Load(t, item.fileId.value), item.fileId.value, item.methodName.value,
                      item.sensitiveMode, item.profile, resultsDir, env).Ok?
    ensures out.1.Some? ==>
      && item.fileId.Some? && ParseMethod(item.methodName).Ok?
      && out.1.value.fileId == item.fileId.value
      && var step := CompressStep(Load(t, item.fileId.value), item.fileId.value, item.methodName.value,
                                  item.sensitiveMode, item.profile, resultsDir, env);
         step.Ok? && out.1.value.result == step.value.response
         && out.0 == Save(t, item.fileId.value, step.value.record)
  {
    if item.fileId.None? then (t, None)
    else
      var id := item.fileId.value;
      match ParseMethod(item.methodName)
      case Err(_) => (t, None)
      case Ok(m) =>
        match CompressStep(Load(t, id), id, m, item.sensitiveMode, item.profile, resultsDir, env)
        case Err(_) => (t, None)
        case Ok(plan) => (Save(t, id, plan.record), Some(BatchResult(id, plan.response)))
  }

  /** The state the loop carries: the ledger and the results so far. */
  type Progress = (Table, seq<BatchResult>)

  /** One turn of the loop applied to the state it carries. */
  function Extend(acc: Progress, item: BatchItem, resultsDir: string, env: Env): Progress {
    var step := ItemStep(acc.0, item, resultsDir, env);
    (step.0, acc.1 + (if step.1.Some? then [step.1.value] else []))
  }

  /** A turn keeps the results so far and adds at most one, which belongs
      to the item of that turn. */
  lemma ExtendShape(acc: Progress, item: BatchItem, resultsDir: string, env: Env)
    ensures var rs' := Extend(acc, item, resultsDir, env).1;
      rs' == acc.1 || (item.fileId.Some? && |rs'| == |acc.1| + 1 && rs' == acc.1 + [rs'[|acc.1|]]
                       && rs'[|acc.1|].fileId == item.fileId.value)
  {
  }

  /** The loop over a prefix of the items, `envs[k]` being how the outside
      world answers for item `k`. */
  function BatchRun(t: Table, items: seq<BatchItem>, envs: seq<Env>, resultsDir: string): Progress
    requires |envs| == |items|
    decreases |items|
  {
    if items == [] then (t, [])
    else
      var n := |items| - 1;
      Extend(BatchRun(t, items[..n], envs[..n], resultsDir), items[n], resultsDir, envs[n])
  }

  /** A turn of the loop depends on the ledger alone, and appends to the
      results whatever came before. */
  lemma ExtendAfterPrefix(t: Table, prefix: seq<BatchResult>, rest: seq<BatchResult>, item: BatchItem,
                          resultsDir: string, env: Env)
    ensures var e := Extend((t, rest), item, resultsDir, env);
      Extend((t, prefix + rest), item, resultsDir, env) == (e.0, prefix + e.1)
  {
    var step := ItemStep(t, item, resultsDir, env);
    var tail := if step.1.Some? then [step.1.value] else [];
    assert (prefix + rest) + tail == prefix + (rest + tail);
  }

  /** Running two batches back to back is running their concatenation: each
      item sees the ledger the items before it left, and the results are
      the first batch's followed by the second's. */
  lemma {:induction false} BatchAppend(t: Table, a: seq<BatchItem>, b: seq<BatchItem>,
                                       ea: seq<Env>, eb: seq<Env>, resultsDir: string)
    requires |ea| == |a| && |eb| == |b|
    ensures var first := BatchRun(t, a, ea, resultsDir);
      var second := BatchRun(first.0, b, eb, resultsDir);
      BatchRun(t, a + b, ea + eb, resultsDir) == (second.0, first.1 + second.1)
    decreases |b|
  {
    var first := BatchRun(t, a, ea, resultsDir);
    if b == [] {
      assert a + b == a && ea + eb == ea;
      assert first.1 + [] == first.1;
    } else {
      var n := |b| - 1;
      var mid := BatchRun(first.0, b[..n], eb[..n], resultsDir);
      BatchAppend(t, a, b[..n], ea, eb[..n], resultsDir);
      assert (a + b)[..|a + b| - 1] == a + b[..n] && (a + b)[|a + b| - 1] == b[n];
      assert (ea + eb)[..|ea + eb| - 1] == ea + eb[..n] && (ea + eb)[|ea + eb| - 1] == eb[n];
      assert BatchRun(t, a + b, ea + eb, resultsDir)
          == Extend((mid.0, first.1 + mid.1), b[n], resultsDir, eb[n]);
      ExtendAfterPrefix(mid.0, first.1, mid.1, b[n], resultsDir, eb[n]);
    }
  }

  /** An item with no `file_id`, or whose method is not an enum value,
      contributes nothing: the batch runs as if it were not there. */
  lemma InvalidItemIsSkipped(t: Table, pre: seq<BatchItem>, x: BatchItem, post: seq<BatchItem>,
                             epre: seq<Env>, ex: Env, epost: seq<Env>, resultsDir: string)
    requires |epre| == |pre| && |epost| == |post|
    requires x.fileId.None? || ParseMethod(x.methodName).Err?
    ensures BatchRun(t, pre + [x] + post, epre + [ex] + epost, resultsDir)
         == BatchRun(t, pre + post, epre + epost, resultsDir)
  {
    BatchAppend(t, pre + [x], post, epre + [ex], epost, resultsDir);
    BatchAppend(t, pre, post, epre, epost, resultsDir);
    var first := BatchRun(t, pre, epre, resultsDir);
    assert (pre + [x])[..|pre|] == pre && (epre + [ex])[..|epre|] == epre;
    assert ItemStep(first.0, x, resultsDir, ex) == (first.0, None);
    assert (pre + [x])[|pre|] == x && (epre + [ex])[|epre|] == ex;
    assert first.1 + [] == first.1;
    assert BatchRun(t, pre + [x], epre + [ex], resultsDir) == first;
    assert pre + [x] + post == (pre + [x]) + post;
  }

  /** The turn of the loop that handles item `i`, run on the ledger the
      items before it left. */
  function Turn(t: Table, items: seq<BatchItem>, envs: seq<Env>, resultsDir: string, i: nat): (Table, Option<BatchResult>)
    requires |envs| == |items| && i < |items|
  {
    ItemStep(BatchRun(t, items[..i], envs[..i], resultsDir).0, items[i], resultsDir, envs[i])
  }

  /** What each turn produced, in input order: `Turn(..., i).1` at
      position `i` (see `OutcomeIsTurn`). */
  function Outcomes(t: Table, items: seq<BatchItem>, envs: seq<Env>, resultsDir: string): (outs: seq<Option<BatchResult>>)
    requires |envs| == |items|
    ensures |outs| == |items|
    decreases |items|
  {
    if items == [] then []
    else
      var n := |items| - 1;
      Outcomes(t, items[..n], envs[..n], resultsDir) + [Turn(t, items, envs, resultsDir, n).1]
  }

  /** `idx` lists, in increasing order, exactly the positions at which
      `outs` holds a result, and `rs[k]` is the result at `idx[k]`. */
  predicate Picks(outs: seq<Option<BatchResult>>, rs: seq<BatchResult>, idx: seq<nat>) {
    && |idx| == |rs|
    && (forall k :: 0 <= k < |idx| ==> idx[k] < |outs| && outs[idx[k]] == Some(rs[k]))
    && (forall k, l :: 0 <= k < l < |idx| ==> idx[k] < idx[l])
    && (forall i :: 0 <= i < |outs| && outs[i].Some? ==> i in idx)
  }

  /** `idx[k]` is the position of the item that produced result `k`, and
      the positions strictly increase. */
  predicate OriginsOf(items: seq<BatchItem>, rs: seq<BatchResult>, idx: seq<nat>) {
    && |idx| == |rs|
    && (forall k :: 0 <= k < |idx| ==> idx[k] < |items| && items[idx[k]].fileId == Some(rs[k].fileId))
    && (forall k, l :: 0 <= k < l < |idx| ==> idx[k] < idx[l])
  }

  /** Adding an item at the end changes none of the turns before it. */
  lemma TurnOfPrefix(t: Table, items: seq<BatchItem>, envs: seq<Env>, resultsDir: string, i: nat)
    requires |envs| == |items| && i < |items| - 1
    ensures var n := |items| - 1;
      Turn(t, items, envs, resultsDir, i) == Turn(t, items[..n], envs[..n], resultsDir, i)
  {
    var n := |items| - 1;
    assert items[..n][..i] == items[..i] && envs[..n][..i] == envs[..i];
  }

  /** Position `i` of the outcomes is what turn `i` produced on the ledger
      the items before it left. */
  lemma {:induction false} OutcomeIsTurn(t: Table, items: seq<BatchItem>, envs: seq<Env>, resultsDir: string, i: nat)
    requires |envs| == |items| && i < |items|
    ensures Outcomes(t, items, envs, resultsDir)[i] == Turn(t, items, envs, resultsDir, i).1
    decreases |items|
  {
    var n := |items| - 1;
    var outs := Outcomes(t, items[..n], envs[..n], resultsDir);
    assert Outcomes(t, items, envs, resultsDir) == outs + [Turn(t, items, envs, resultsDir, n).1];
    if i < n {
      OutcomeIsTurn(t, items[..n], envs[..n], resultsDir, i);
      TurnOfPrefix(t, items, envs, resultsDir, i);
      assert outs[i] == Turn(t, items[..n], envs[..n], resultsDir, i).1;
      assert (outs + [Turn(t, items, envs, resultsDir, n).1])[i] == outs[i];
    } else {
      assert i == n;
      assert (outs + [Turn(t, items, envs, resultsDir, n).1])[n] == Turn(t, items, envs, resultsDir, n).1;
    }
  }

  /** A last outcome extends the positions picked before it by its own
      position exactly when it holds a result. */
  lemma PicksGrow(outs: seq<Option<BatchResult>>, last: Option<BatchResult>, rs: seq<BatchResult>, idx: seq<nat>)
    requires Picks(outs, rs, idx)
    ensures Picks(outs + [last], rs + (if last.Some? then [last.value] else []),
                  if last.Some? then idx + [|outs|] else idx)
  {
    var outs' := outs + [last];
    var rs' := rs + (if last.Some? then [last.value] else []);
    var idx' := if last.Some? then idx + [|outs|] else idx;
    assert forall k :: 0 <= k < |idx| ==> idx'[k] == idx[k] && rs'[k] == rs[k] && outs'[idx[k]] == outs[idx[k]];
    forall i | 0 <= i < |outs'| && outs'[i].Some?
      ensures i in idx'
    {
      if i < |outs| {
        assert outs'[i] == outs[i];
      } else {
        assert idx'[|idx|] == i;
      }
    }
  }

  /** The last turn appends its outcome to the outcomes, and its result,
      if any, to the results of the items before it. */
  lemma LastTurn(t: Table, items: seq<BatchItem>, envs: seq<Env>, resultsDir: string)
    requires |envs| == |items| && items != []
    ensures var n := |items| - 1;
      var last := Turn(t, items, envs, resultsDir, n).1;
      && BatchRun(t, items, envs, resultsDir).1
         == BatchRun(t, items[..n], envs[..n], resultsDir).1 + (if last.Some? then [last.value] else [])
      && Outcomes(t, items, envs, resultsDir) == Outcomes(t, items[..n], envs[..n], resultsDir) + [last]
  {
    var n := |items| - 1;
    var before := BatchRun(t, items[..n], envs[..n], resultsDir);
    assert Turn(t, items, envs, resultsDir, n).1 == ItemStep(before.0, items[n], resultsDir, envs[n]).1;
  }

  /** The results are exactly what the succeeding turns produced, in input
      order: every item whose turn succeeds on the ledger of that moment
      contributes its result, and no other item does. */
  lemma {:induction false} ResultsAreSucceedingTurns(t: Table, items: seq<BatchItem>, envs: seq<Env>,
                                                     resultsDir: string)
    requires |envs| == |items|
    ensures exists idx :: Picks(Outcomes(t, items, envs, resultsDir), BatchRun(t, items, envs, resultsDir).1, idx)
    decreases |items|
  {
    if items == [] {
      assert Picks(Outcomes(t, items, envs, resultsDir), BatchRun(t, items, envs, resultsDir).1, []);
    } else {
      var n := |items| - 1;
      var before := BatchRun(t, items[..n], envs[..n], resultsDir);
      var outs := Outcomes(t, items[..n], envs[..n], resultsDir);
      ResultsAreSucceedingTurns(t, items[..n], envs[..n], resultsDir);
      var idx: seq<nat> :| Picks(outs, before.1, idx);
      LastTurn(t, items, envs, resultsDir);
      PicksGrow(outs, Turn(t, items, envs, resultsDir, n).1, before.1, idx);
    }
  }

  /** A result's turn names the file id of its item, so the positions
      picked for the succeeding turns are origins of the results. */
  lemma {:induction false} ResultsFollowItems(t: Table, items: seq<BatchItem>, envs: seq<Env>, resultsDir: string)
    requires |envs| == |items|
    ensures exists idx :: OriginsOf(items, BatchRun(t, items, envs, resultsDir).1, idx)
  {
    var rs := BatchRun(t, items, envs, resultsDir).1;
    var outs := Outcomes(t, items, envs, resultsDir);
    ResultsAreSucceedingTurns(t, items, envs, resultsDir);
    var idx: seq<nat> :| Picks(outs, rs, idx);
    forall k | 0 <= k < |idx|
      ensures items[idx[k]].fileId == Some(rs[k].fileId)
    {
      var i := idx[k];
      OutcomeIsTurn(t, items, envs, resultsDir, i);
      assert ItemStep(BatchRun(t, items[..i], envs[..i], resultsDir).0, items[i], resultsDir, envs[i]).1 == Some(rs[k]);
    }
    assert OriginsOf(items, rs, idx);
  }

  /** Hence there are never more results than items. */
  lemma AtMostOneResultPerItem(t: Table, items: seq<BatchItem>, envs: seq<Env>, resultsDir: string)
    requires |envs| == |items|
    ensures |BatchRun(t, items, envs, resultsDir).1| <= |items|
  {
    ResultsFollowItems(t, items, envs, resultsDir);
    var rs := BatchRun(t, items, envs, resultsDir).1;
    var idx :| OriginsOf(items, rs, idx);
    StrictlyIncreasingBound(idx, |items|);
  }

  /** A strictly increasing sequence of positions below `n` has at most `n`
      elements. */
  lemma {:induction false} StrictlyIncreasingBound(idx: seq<nat>, n: nat)
    requires forall k :: 0 <= k < |idx| ==> idx[k] < n
    requires forall k, l :: 0 <= k < l < |idx| ==> idx[k] < idx[l]
    ensures |idx| <= n
    decreases n
  {
    if idx != [] {
      var m := |idx| - 1;
      assert idx[m] < n;
      assert forall k :: 0 <= k < m ==> idx[k] < idx[m] <= n - 1;
      StrictlyIncreasingBound(idx[..m], n - 1);
    }
  }

  /** The batch handler against the ledger. */
  method BatchCompress(store: ResultStore, items: seq<BatchItem>, envs: seq<Env>, resultsDir: string)
    returns (results: seq<BatchResult>)
    requires |envs| == |items|
    modifies store
    ensures (store.results, results) == BatchRun(old(store.results), items, envs, resultsDir)
  {
    results := [];
    for i := 0 to |items|
      invariant (store.results, results) == BatchRun(old(store.results), items[..i], envs[..i], resultsDir)
    {
      assert items[..i + 1][..i] == items[..i] && envs[..i + 1][..i] == envs[..i];
      ghost var before: Progress := (store.results, results);
      var item := items[i];
      if item.fileId.Some? && item.methodName.Some? && item.methodName.value in EnumMethods {
        var resp := CompressFileInternal(store, item.fileId.value, item.methodName.value, item.sensitiveMode,
                                         item.profile, resultsDir, envs[i]);
        ghost var step := CompressStep(Load(before.0, item.fileId.value), item.fileId.value, item.methodName.value,
                                       item.sensitiveMode, item.profile, resultsDir, envs[i]);
        if resp.Ok? {
          results := results + [BatchResult(item.fileId.value, resp.value)];
          assert ItemStep(before.0, item, resultsDir, envs[i])
              == (Save(before.0, item.fileId.value, step.value.record), Some(BatchResult(item.fileId.value, resp.value)));
        } else {
          assert ItemStep(before.0, item, resultsDir, envs[i]) == (before.0, None);
          assert results == results + [];
        }
      } else {
        assert ItemStep(before.0, item, resultsDir, envs[i]) == (before.0, None);
        assert results == results + [];
      }
      assert (store.results, results) == Extend(before, item, resultsDir, envs[i]);
    }
    assert items[..|items|] == items && envs[..|envs|] == envs;
  }
}
