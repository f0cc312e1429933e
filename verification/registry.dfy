/** The list logic shared by the student, course and faculty panels: an
    ordered sequence of records, a draft typed into the form, an add that
    validates the draft and numbers the new record `length + 1`, and a delete
    that filters out every record carrying a given id.

    The three panels differ only in a handful of parameters, gathered in
    `Kind`: how to read a record's id, which drafts are accepted, how a record
    is built from a draft and its id (this is where the derived avatar or
    colour is attached), the blank draft the form is reset to, and the
    notification raised on rejection and on success. */
module Registry {

  /** The notification an operation raises; the toast library's display
      options are not modelled. */
  datatype Toast = Silent | ErrorToast(message: string) | SuccessToast(message: string)

  /** One panel's state: the records in insertion order and the form's draft. */
  datatype Panel<D, R> = Panel(records: seq<R>, draft: D)

  /** What an add returns: the panel's next state and the notification raised. */
  datatype Added<D, R> = Added(panel: Panel<D, R>, toast: Toast)

  datatype Kind<!D, !R> = Kind(
    idOf: R -> int,
    valid: D -> bool,
    build: (D, int) -> R,
    blank: D,
    rejected: Toast,
    accepted: Toast)

  /** A well-formed kind stores the id it is given in the record it builds. */
  ghost predicate AssignsIds<D(!new), R>(k: Kind<D, R>) {
    forall d: D, n: int :: k.idOf(k.build(d, n)) == n
  }

  /** The id policy: one more than the current number of records. */
  function NextId<R>(records: seq<R>): int {
    |records| + 1
  }

  /** Adds the draft as a new last record, or, when the draft is rejected,
      leaves the panel as it is and raises the rejection notice. */
  function Add<D, R>(k: Kind<D, R>, p: Panel<D, R>): (a: Added<D, R>)
    ensures !k.valid(p.draft) ==> a.panel == p && a.toast == k.rejected
    ensures k.valid(p.draft) ==>
      && |a.panel.records| == |p.records| + 1
      && a.panel.records[..|p.records|] == p.records
      && a.panel.records[|p.records|] == k.build(p.draft, |p.records| + 1)
      && a.panel.draft == k.blank
      && a.toast == k.accepted
  {
    if !k.valid(p.draft) then
      Added(p, k.rejected)
    else
      Added(Panel(p.records + [k.build(p.draft, NextId(p.records))], k.blank), k.accepted)
  }

  /** Removes every record whose id is `id`, keeping the others in order. */
  function Delete<R>(records: seq<R>, idOf: R -> int, id: int): (r: seq<R>)
    ensures |r| <= |records|
    ensures forall k | 0 <= k < |r| :: r[k] in records && idOf(r[k]) != id
    ensures forall i | 0 <= i < |records| && idOf(records[i]) != id :: records[i] in r
  {
    if records == [] then []
    else
      var init := records[..|records| - 1];
      var last := records[|records| - 1];
      assert records == init + [last];
      var kept := Delete(init, idOf, id);
      if idOf(last) == id then kept else kept + [last]
  }

  /** `r` is the subsequence of `records` at the increasing positions `idx`,
      and `idx` lists exactly the positions whose record does not carry `id`. */
  ghost predicate SelectedAt<R>(records: seq<R>, r: seq<R>, idOf: R -> int, id: int, idx: seq<int>) {
    && |idx| == |r|
    && (forall k | 0 <= k < |idx| :: 0 <= idx[k] < |records| && r[k] == records[idx[k]])
    && (forall k, m | 0 <= k < m < |idx| :: idx[k] < idx[m])
    && (forall i | 0 <= i < |records| :: idOf(records[i]) != id <==> i in idx)
  }

  /** The reference meaning of a delete: `r` keeps exactly the records whose
      id differs from `id`, in their original relative order. */
  ghost predicate KeepsExactly<R>(records: seq<R>, r: seq<R>, idOf: R -> int, id: int) {
    exists idx :: SelectedAt(records, r, idOf, id, idx)
  }

  ghost function KeptPositions<R>(records: seq<R>, idOf: R -> int, id: int): seq<int> {
    if records == [] then []
    else
      var n := |records| - 1;
      var init := KeptPositions(records[..n], idOf, id);
      if idOf(records[n]) == id then init else init + [n]
  }

  /** A selection from a prefix stays a selection when a dropped record follows. */
  lemma SelectedAtDrop<R>(records: seq<R>, r: seq<R>, idOf: R -> int, id: int, idx: seq<int>)
    requires records != [] && idOf(records[|records| - 1]) == id
    requires SelectedAt(records[..|records| - 1], r, idOf, id, idx)
    ensures SelectedAt(records, r, idOf, id, idx)
  {
    var n := |records| - 1;
    assert n !in idx;
    forall i | 0 <= i < n ensures idOf(records[i]) != id <==> i in idx {
      assert records[i] == records[..n][i];
    }
  }

  /** A selection from a prefix extends by a kept record that follows. */
  lemma SelectedAtKeep<R>(records: seq<R>, r: seq<R>, idOf: R -> int, id: int, idx: seq<int>)
    requires records != [] && idOf(records[|records| - 1]) != id
    requires SelectedAt(records[..|records| - 1], r, idOf, id, idx)
    ensures SelectedAt(records, r + [records[|records| - 1]], idOf, id, idx + [|records| - 1])
  {
    var n := |records| - 1;
    var init := records[..n];
    var r', idx' := r + [records[n]], idx + [n];
    assert n !in idx;
    forall k | 0 <= k < |idx'| ensures 0 <= idx'[k] < |records| && r'[k] == records[idx'[k]] {
      if k < |idx| {
        assert idx'[k] == idx[k] && r'[k] == r[k];
        assert init[idx[k]] == records[idx[k]];
      }
    }
    forall k, m | 0 <= k < m < |idx'| ensures idx'[k] < idx'[m] {
      if m < |idx| {
        assert idx'[k] == idx[k] && idx'[m] == idx[m];
      }
    }
    forall i | 0 <= i < |records| ensures idOf(records[i]) != id <==> i in idx' {
      if i < n {
        assert records[i] == init[i];
        assert i in idx' <==> i in idx;
      }
    }
  }

  lemma {:induction false} DeleteSelectsAt<R>(records: seq<R>, idOf: R -> int, id: int)
    ensures SelectedAt(records, Delete(records, idOf, id), idOf, id, KeptPositions(records, idOf, id))
  {
    if records != [] {
      var n := |records| - 1;
      var init := records[..n];
      DeleteSelectsAt(init, idOf, id);
      if idOf(records[n]) == id {
        SelectedAtDrop(records, Delete(init, idOf, id), idOf, id, KeptPositions(init, idOf, id));
      } else {
        SelectedAtKeep(records, Delete(init, idOf, id), idOf, id, KeptPositions(init, idOf, id));
      }
    }
  }

  lemma DeleteKeepsExactly<R>(records: seq<R>, idOf: R -> int, id: int)
    ensures KeepsExactly(records, Delete(records, idOf, id), idOf, id)
  {
    DeleteSelectsAt(records, idOf, id);
  }

  /** Deleting an id no record carries changes nothing. */
  lemma {:induction false} DeleteAbsent<R>(records: seq<R>, idOf: R -> int, id: int)
    requires forall x | x in records :: idOf(x) != id
    ensures Delete(records, idOf, id) == records
  {
    if records != [] {
      var n := |records| - 1;
      assert records[n] in records;
      assert forall x | x in records[..n] :: x in records;
      DeleteAbsent(records[..n], idOf, id);
      assert records == records[..n] + [records[n]];
    }
  }

  lemma {:induction false} DeleteIdempotent<R>(records: seq<R>, idOf: R -> int, id: int)
    ensures Delete(Delete(records, idOf, id), idOf, id) == Delete(records, idOf, id)
  {
    DeleteAbsent(Delete(records, idOf, id), idOf, id);
  }

  /** Deleting from a concatenation deletes from each part. */
  lemma {:induction false} DeleteConcat<R>(a: seq<R>, b: seq<R>, idOf: R -> int, id: int)
    ensures Delete(a + b, idOf, id) == Delete(a, idOf, id) + Delete(b, idOf, id)
  {
    if b == [] {
      assert a + b == a;
    } else {
      var n := |b| - 1;
      var x := b[n];
      DeleteConcat(a, b[..n], idOf, id);
      assert (a + b)[..|a + b| - 1] == a + b[..n];
      assert (a + b)[|a + b| - 1] == x;
      var da, db := Delete(a, idOf, id), Delete(b[..n], idOf, id);
      if idOf(x) != id {
        assert Delete(b, idOf, id) == db + [x];
        assert da + db + [x] == da + (db + [x]);
      }
    }
  }

  /** The number of records carrying `id`. */
  function CountId<R>(records: seq<R>, idOf: R -> int, id: int): nat {
    if records == [] then 0
    else
      var n := |records| - 1;
      CountId(records[..n], idOf, id) + (if idOf(records[n]) == id then 1 else 0)
  }

  /** A delete shortens the list by exactly the number of records carrying the id. */
  lemma {:induction false} DeleteLength<R>(records: seq<R>, idOf: R -> int, id: int)
    ensures |Delete(records, idOf, id)| == |records| - CountId(records, idOf, id)
  {
    if records != [] {
      DeleteLength(records[..|records| - 1], idOf, id);
    }
  }

  ghost predicate UniqueIds<R>(records: seq<R>, idOf: R -> int) {
    forall i, j | 0 <= i < j < |records| :: idOf(records[i]) != idOf(records[j])
  }

  /** With unique ids, deleting the id of record `i` removes that record alone. */
  lemma DeleteUniquePresent<R>(records: seq<R>, idOf: R -> int, i: int)
    requires UniqueIds(records, idOf)
    requires 0 <= i < |records|
    ensures Delete(records, idOf, idOf(records[i])) == records[..i] + records[i + 1..]
    ensures |Delete(records, idOf, idOf(records[i]))| == |records| - 1
  {
    var id := idOf(records[i]);
    var a, x, b := records[..i], records[i], records[i + 1..];
    assert records == a + [x] + b;
    forall y | y in a ensures idOf(y) != id {
      var j :| 0 <= j < |a| && a[j] == y;
      assert records[j] == y;
    }
    forall y | y in b ensures idOf(y) != id {
      var j :| 0 <= j < |b| && b[j] == y;
      assert records[i + 1 + j] == y;
    }
    DeleteAbsent(a, idOf, id);
    DeleteAbsent(b, idOf, id);
    DeleteConcat(a + [x], b, idOf, id);
    DeleteConcat(a, [x], idOf, id);
    assert Delete([x], idOf, id) == [] by {
      assert [x][..0] == [];
    }
  }

  /** Deleting never introduces a duplicate id. */
  lemma {:induction false} DeletePreservesUnique<R>(records: seq<R>, idOf: R -> int, id: int)
    requires UniqueIds(records, idOf)
    ensures UniqueIds(Delete(records, idOf, id), idOf)
  {
    var r := Delete(records, idOf, id);
    var idx := KeptPositions(records, idOf, id);
    DeleteSelectsAt(records, idOf, id);
    forall k, m | 0 <= k < m < |r| ensures idOf(r[k]) != idOf(r[m]) {
      assert idx[k] < idx[m];
    }
  }

  /** The ids are exactly 1, 2, ..., |records| in order, as in the seeds and
      after any run of adds from them. */
  ghost predicate DenseIds<R>(records: seq<R>, idOf: R -> int) {
    forall i | 0 <= i < |records| :: idOf(records[i]) == i + 1
  }

  lemma AddKeepsDense<D(!new), R>(k: Kind<D, R>, p: Panel<D, R>)
    requires AssignsIds(k)
    requires DenseIds(p.records, k.idOf)
    ensures DenseIds(Add(k, p).panel.records, k.idOf)
    ensures UniqueIds(Add(k, p).panel.records, k.idOf)
  {
    var r := Add(k, p).panel.records;
    if k.valid(p.draft) {
      assert forall i | 0 <= i < |p.records| :: r[i] == p.records[i];
      assert k.idOf(r[|p.records|]) == |p.records| + 1;
    }
  }

  /** The flaw of the id policy: after an accepted add, ids are unique exactly
      when they were before and no record already carries the length-based
      id, which a delete makes possible. */
  lemma AddUniqueIff<D(!new), R>(k: Kind<D, R>, p: Panel<D, R>)
    requires AssignsIds(k)
    requires k.valid(p.draft)
    ensures UniqueIds(Add(k, p).panel.records, k.idOf)
        <==> UniqueIds(p.records, k.idOf) && forall x | x in p.records :: k.idOf(x) != |p.records| + 1
  {
    var n := |p.records|;
    var r := Add(k, p).panel.records;
    assert forall i | 0 <= i < n :: r[i] == p.records[i];
    assert k.idOf(r[n]) == n + 1;
    if UniqueIds(r, k.idOf) {
      forall i, j | 0 <= i < j < n ensures k.idOf(p.records[i]) != k.idOf(p.records[j]) {
        assert k.idOf(r[i]) != k.idOf(r[j]);
      }
      forall x | x in p.records ensures k.idOf(x) != n + 1 {
        var i :| 0 <= i < n && p.records[i] == x;
        assert k.idOf(r[i]) != k.idOf(r[n]);
      }
    }
    if UniqueIds(p.records, k.idOf) && forall x | x in p.records :: k.idOf(x) != n + 1 {
      forall i, j | 0 <= i < j < |r| ensures k.idOf(r[i]) != k.idOf(r[j]) {
        if j == n {
          assert r[i] in p.records;
        }
      }
    }
  }

  /** Deleting the id an add just assigned undoes the add exactly when no
      older record carries that id; otherwise the older record goes too. */
  lemma AddThenDeleteIff<D(!new), R>(k: Kind<D, R>, p: Panel<D, R>)
    requires AssignsIds(k)
    requires k.valid(p.draft)
    ensures Delete(Add(k, p).panel.records, k.idOf, |p.records| + 1) == p.records
        <==> forall x | x in p.records :: k.idOf(x) != |p.records| + 1
  {
    var n := |p.records|;
    var r := Add(k, p).panel.records;
    var x := k.build(p.draft, n + 1);
    assert r == p.records + [x];
    DeleteConcat(p.records, [x], k.idOf, n + 1);
    assert Delete([x], k.idOf, n + 1) == [] by {
      assert [x][..0] == [];
    }
    if forall y | y in p.records :: k.idOf(y) != n + 1 {
      DeleteAbsent(p.records, k.idOf, n + 1);
    } else {
      var y :| y in p.records && k.idOf(y) == n + 1;
      assert y !in Delete(p.records, k.idOf, n + 1);
    }
  }

  /** Deleting the first of two records whose ids differ leaves the second. */
  lemma DeleteFirstOfTwo<R>(s: seq<R>, idOf: R -> int)
    requires |s| == 2 && idOf(s[0]) != idOf(s[1])
    ensures Delete(s, idOf, idOf(s[0])) == [s[1]]
  {
    assert s == [s[0]] + [s[1]];
    DeleteConcat([s[0]], [s[1]], idOf, idOf(s[0]));
    assert [s[0]][..0] == [] && [s[1]][..0] == [];
  }

  /** The concrete collision: from two records numbered 1 and 2, deleting 1
      and adding leaves two records that both carry id 2. */
  lemma IdCollision<D(!new), R>(k: Kind<D, R>, p: Panel<D, R>)
    requires AssignsIds(k)
    requires |p.records| == 2
    requires k.idOf(p.records[0]) == 1 && k.idOf(p.records[1]) == 2
    requires k.valid(p.draft)
    ensures var r := Add(k, Panel(Delete(p.records, k.idOf, 1), p.draft)).panel.records;
      && r == [p.records[1], k.build(p.draft, 2)]
      && k.idOf(r[0]) == 2 && k.idOf(r[1]) == 2
      && !UniqueIds(r, k.idOf)
  {
    DeleteFirstOfTwo(p.records, k.idOf);
  }
}
