/**
 * The "treinamentos" table and `salvar_registro` (grafico.py:80-90), with the
 * remote store held in memory as a sequence of records.
 *
 * A write is an upsert keyed by the normalised (area, mes): the first record
 * whose stored labels equal the key is looked up, and its counts are
 * replaced (by id) when there is one; otherwise one record is inserted with a
 * fresh id. The store hands out ids from a counter; no other part of the
 * dashboard looks inside an id.
 */
module Store {
  import opened Text

  /** One row of the table: id, area, mes, em_dia, vencido. */
  datatype Record = Record(id: nat, area: string, mes: string, emDia: int, vencido: int)

  /** The whole table and the next id the store will hand out. */
  datatype State = State(records: seq<Record>, nextId: nat)

  /** The arguments of one salvar_registro call, before normalisation. */
  datatype Op = Op(area: string, mes: string, emDia: int, vencido: int)

  /** The stored key is exactly (area, mes): what `.match({"area": area, "mes": mes})` selects. */
  predicate Matches(r: Record, area: string, mes: string) {
    r.area == area && r.mes == mes
  }

  /** The normalised key an Op writes to. */
  function KeyArea(op: Op): string { Normalize(op.area) }
  function KeyMes(op: Op): string { Normalize(op.mes) }

  /** Position of the first record matching (area, mes), the one `.data[0]` picks. */
  function FirstMatch(rs: seq<Record>, area: string, mes: string): (r: Option<nat>)
    ensures r.Some? ==>
      && r.value < |rs| && Matches(rs[r.value], area, mes)
      && forall k :: 0 <= k < r.value ==> !Matches(rs[k], area, mes)
    ensures r.None? <==> forall k :: 0 <= k < |rs| ==> !Matches(rs[k], area, mes)
  {
    if rs == [] then None
    else if Matches(rs[0], area, mes) then Some(0)
    else
      match FirstMatch(rs[1..], area, mes)
      case None =>
        assert forall k :: 1 <= k < |rs| ==> rs[k] == rs[1..][k - 1];
        None
      case Some(i) =>
        assert rs[i + 1] == rs[1..][i];
        assert forall k :: 1 <= k < i + 1 ==> rs[k] == rs[1..][k - 1];
        Some(i + 1)
  }

  /** The id of the first record matching (area, mes), if any. */
  function MatchId(rs: seq<Record>, area: string, mes: string): (r: Option<nat>)
    ensures r.Some? <==> exists k :: 0 <= k < |rs| && Matches(rs[k], area, mes)
  {
    match FirstMatch(rs, area, mes)
    case Some(i) => Some(rs[i].id)
    case None => None
  }

  /** `.update({"em_dia": e, "vencido": v}).eq("id", id)`: every record with that id gets the new counts. */
  function WithCounts(rs: seq<Record>, id: nat, emDia: int, vencido: int): (r: seq<Record>)
    ensures |r| == |rs|
  {
    seq(|rs|, k requires 0 <= k < |rs| =>
      if rs[k].id == id then rs[k].(emDia := emDia, vencido := vencido) else rs[k])
  }

  /** No two records share an id. */
  predicate DistinctIds(rs: seq<Record>) {
    forall i, j :: 0 <= i < j < |rs| ==> rs[i].id != rs[j].id
  }

  /** Ids are distinct and all below the counter, so the next one is fresh. */
  predicate IdsFresh(s: State) {
    DistinctIds(s.records) && forall k :: 0 <= k < |s.records| ==> s.records[k].id < s.nextId
  }

  /** At most one record per (area, mes). */
  predicate UniqueKeys(rs: seq<Record>) {
    forall i, j :: 0 <= i < j < |rs| ==> !Matches(rs[j], rs[i].area, rs[i].mes)
  }

  /** Every stored label is in normalised form. */
  predicate AllNormal(rs: seq<Record>) {
    forall k :: 0 <= k < |rs| ==> IsNormal(rs[k].area) && IsNormal(rs[k].mes)
  }

  /** The invariant of a table written only through salvar_registro. */
  predicate Valid(s: State) {
    IdsFresh(s) && UniqueKeys(s.records) && AllNormal(s.records)
  }

  /**
   * salvar_registro(area, mes, em_dia, vencido) as a function of the table.
   * With a match, the matching record's counts are replaced (not added to) and
   * nothing else changes; without one, exactly one record is appended.
   */
  function Upsert(s: State, op: Op): (t: State)
    ensures FirstMatch(s.records, KeyArea(op), KeyMes(op)).None? ==>
      t == State(s.records + [Record(s.nextId, KeyArea(op), KeyMes(op), op.emDia, op.vencido)], s.nextId + 1)
    ensures DistinctIds(s.records) && FirstMatch(s.records, KeyArea(op), KeyMes(op)).Some? ==>
      var i := FirstMatch(s.records, KeyArea(op), KeyMes(op)).value;
      && t.nextId == s.nextId
      && |t.records| == |s.records|
      && t.records[i] == s.records[i].(emDia := op.emDia, vencido := op.vencido)
      && forall k :: 0 <= k < |s.records| && k != i ==> t.records[k] == s.records[k]
  {
    var area := Normalize(op.area);
    var mes := Normalize(op.mes);
    match FirstMatch(s.records, area, mes)
    case Some(i) => State(WithCounts(s.records, s.records[i].id, op.emDia, op.vencido), s.nextId)
    case None => State(s.records + [Record(s.nextId, area, mes, op.emDia, op.vencido)], s.nextId + 1)
  }

  /** A sequence of salvar_registro calls, applied in order. */
  function ApplyAll(s: State, ops: seq<Op>): State
    decreases |ops|
  {
    if ops == [] then s else Upsert(ApplyAll(s, ops[..|ops| - 1]), ops[|ops| - 1])
  }

  /** One more call upserts into the state the earlier calls left. */
  lemma ApplyAllSnoc(s: State, ops: seq<Op>, op: Op)
    ensures ApplyAll(s, ops + [op]) == Upsert(ApplyAll(s, ops), op)
  {
    assert (ops + [op])[..|ops|] == ops;
  }

  /** Applying `a + b` is applying `a`, then `b`. */
  lemma {:induction false} ApplyAllAppend(s: State, a: seq<Op>, b: seq<Op>)
    ensures ApplyAll(s, a + b) == ApplyAll(ApplyAll(s, a), b)
    decreases |b|
  {
    if b == [] {
      assert a + b == a;
    } else {
      var n := |b| - 1;
      assert (a + b)[..|a + b| - 1] == a + b[..n];
      ApplyAllAppend(s, a, b[..n]);
    }
  }

  /** The counts stored under (area, mes), as salvar_registro's lookup would find them. */
  function Lookup(rs: seq<Record>, area: string, mes: string): (r: Option<(int, int)>)
    ensures r.None? <==> forall k :: 0 <= k < |rs| ==> !Matches(rs[k], area, mes)
    ensures UniqueKeys(rs) ==> forall k :: 0 <= k < |rs| && Matches(rs[k], area, mes) ==>
      r == Some((rs[k].emDia, rs[k].vencido))
  {
    match FirstMatch(rs, area, mes)
    case Some(i) =>
      Some((rs[i].emDia, rs[i].vencido))
    case None => None
  }

  /** Upserts change counts only: the (area, mes) of every existing record stays put. */
  lemma UpsertKeepsKeys(s: State, op: Op)
    ensures |Upsert(s, op).records| >= |s.records|
    ensures forall k :: 0 <= k < |s.records| ==>
      Upsert(s, op).records[k].area == s.records[k].area && Upsert(s, op).records[k].mes == s.records[k].mes
      && Upsert(s, op).records[k].id == s.records[k].id
  {
  }

  /** Any salvar_registro call keeps the table's invariant. */
  lemma UpsertValid(s: State, op: Op)
    requires Valid(s)
    ensures Valid(Upsert(s, op))
  {
    var t := Upsert(s, op);
    var a, m := KeyArea(op), KeyMes(op);
    NormalizeIdempotent(op.area);
    NormalizeIdempotent(op.mes);
    UpsertKeepsKeys(s, op);
    if FirstMatch(s.records, a, m).None? {
      forall i, j | 0 <= i < j < |t.records| ensures !Matches(t.records[j], t.records[i].area, t.records[i].mes) {
        if j == |s.records| {
          assert t.records[j] == Record(s.nextId, a, m, op.emDia, op.vencido);
          assert !Matches(s.records[i], a, m);
        }
      }
    }
  }

  /** A record appended to a table with no match for its key is that key's first match. */
  lemma FirstMatchOfAppended(rs: seq<Record>, r: Record, area: string, mes: string)
    requires FirstMatch(rs, area, mes).None? && Matches(r, area, mes)
    ensures FirstMatch(rs + [r], area, mes) == Some(|rs|)
  {
    var ts := rs + [r];
    assert ts[|rs|] == r;
    var v := FirstMatch(ts, area, mes);
    assert v.Some?;
    if v.value < |rs| {
      assert false;
    }
  }

  /** Calling salvar_registro twice with the same arguments leaves the table as one call does. */
  lemma UpsertIdempotent(s: State, op: Op)
    requires IdsFresh(s)
    ensures Upsert(Upsert(s, op), op) == Upsert(s, op)
  {
    var t := Upsert(s, op);
    var a, m := KeyArea(op), KeyMes(op);
    UpsertKeepsKeys(s, op);
    match FirstMatch(s.records, a, m)
    case Some(i) =>
      assert FirstMatch(t.records, a, m) == Some(i);
      assert WithCounts(t.records, t.records[i].id, op.emDia, op.vencido) == t.records;
    case None =>
      var n := |s.records|;
      FirstMatchOfAppended(s.records, Record(s.nextId, a, m, op.emDia, op.vencido), a, m);
      assert forall k :: 0 <= k < n ==> t.records[k].id != s.nextId;
      assert WithCounts(t.records, t.records[n].id, op.emDia, op.vencido) == t.records;
  }

  /**
   * After salvar_registro, its normalised key holds the given counts, and
   * every other key holds what it held before.
   */
  lemma UpsertLookup(s: State, op: Op, area: string, mes: string)
    requires Valid(s)
    ensures Lookup(Upsert(s, op).records, KeyArea(op), KeyMes(op)) == Some((op.emDia, op.vencido))
    ensures (area, mes) != (KeyArea(op), KeyMes(op)) ==>
      Lookup(Upsert(s, op).records, area, mes) == Lookup(s.records, area, mes)
  {
    var t := Upsert(s, op);
    var a, m := KeyArea(op), KeyMes(op);
    UpsertValid(s, op);
    UpsertKeepsKeys(s, op);
    match FirstMatch(s.records, a, m)
    case Some(i) =>
      assert Matches(t.records[i], a, m);
      if (area, mes) != (a, m) {
        if j :| 0 <= j < |s.records| && Matches(s.records[j], area, mes) {
          assert j != i && t.records[j] == s.records[j];
        }
      }
    case None =>
      var n := |s.records|;
      assert Matches(t.records[n], a, m);
      if (area, mes) != (a, m) {
        if j :| 0 <= j < |s.records| && Matches(s.records[j], area, mes) {
          assert t.records[j] == s.records[j];
        }
      }
  }

  /** Any sequence of salvar_registro calls keeps the invariant, one record per key included. */
  lemma {:induction false} ApplyAllValid(s: State, ops: seq<Op>)
    requires Valid(s)
    ensures Valid(ApplyAll(s, ops))
    decreases |ops|
  {
    if ops != [] {
      ApplyAllValid(s, ops[..|ops| - 1]);
      UpsertValid(ApplyAll(s, ops[..|ops| - 1]), ops[|ops| - 1]);
    }
  }

  /** The call writes to the key (area, mes). */
  predicate WritesTo(op: Op, area: string, mes: string) {
    KeyArea(op) == area && KeyMes(op) == mes
  }

  /** The last call that wrote to (area, mes), if any. */
  function LastWrite(ops: seq<Op>, area: string, mes: string): (r: Option<nat>)
    ensures r.Some? ==> r.value < |ops|
    decreases |ops|
  {
    if ops == [] then None
    else if WritesTo(ops[|ops| - 1], area, mes) then Some(|ops| - 1)
    else LastWrite(ops[..|ops| - 1], area, mes)
  }

  /** LastWrite names a call that writes to the key and that no later call overwrites. */
  lemma {:induction false} LastWriteFound(ops: seq<Op>, area: string, mes: string)
    ensures var r := LastWrite(ops, area, mes);
      r.Some? ==>
        && WritesTo(ops[r.value], area, mes)
        && forall k :: r.value < k < |ops| ==> !WritesTo(ops[k], area, mes)
    decreases |ops|
  {
    if ops != [] && !WritesTo(ops[|ops| - 1], area, mes) {
      var earlier := ops[..|ops| - 1];
      LastWriteFound(earlier, area, mes);
      assert forall k :: 0 <= k < |earlier| ==> ops[k] == earlier[k];
    }
  }

  /** LastWrite is None exactly when no call writes to the key. */
  lemma {:induction false} LastWriteAbsent(ops: seq<Op>, area: string, mes: string)
    ensures LastWrite(ops, area, mes).None? <==> forall k :: 0 <= k < |ops| ==> !WritesTo(ops[k], area, mes)
    decreases |ops|
  {
    if ops != [] && !WritesTo(ops[|ops| - 1], area, mes) {
      var earlier := ops[..|ops| - 1];
      LastWriteAbsent(earlier, area, mes);
      assert forall k :: 0 <= k < |earlier| ==> ops[k] == earlier[k];
    }
  }

  /** A call that no later call overwrites is the last write to its key. */
  lemma LastWriteAt(before: seq<Op>, op: Op, after: seq<Op>, area: string, mes: string)
    requires WritesTo(op, area, mes)
    requires forall k :: 0 <= k < |after| ==> !WritesTo(after[k], area, mes)
    ensures LastWrite(before + [op] + after, area, mes) == Some(|before|)
  {
    var ops := before + [op] + after;
    var n := |before|;
    assert ops[n] == op;
    LastWriteFound(ops, area, mes);
    LastWriteAbsent(ops, area, mes);
    var r := LastWrite(ops, area, mes);
    assert r.Some?;
    var v := r.value;
    if v < n {
      assert false;
    } else if v > n {
      assert false;
    }
  }

  /**
   * Last write wins: after a sequence of salvar_registro calls, a key holds
   * the counts of the last call that wrote to it, or what it held before when
   * no call did.
   */
  lemma {:induction false} ApplyAllLookup(s: State, ops: seq<Op>, area: string, mes: string)
    requires Valid(s)
    ensures Lookup(ApplyAll(s, ops).records, area, mes) ==
      match LastWrite(ops, area, mes)
      case Some(k) => Some((ops[k].emDia, ops[k].vencido))
      case None => Lookup(s.records, area, mes)
    decreases |ops|
  {
    if ops != [] {
      var init := ops[..|ops| - 1];
      var op := ops[|ops| - 1];
      ApplyAllValid(s, init);
      assert ApplyAll(s, ops) == Upsert(ApplyAll(s, init), op);
      UpsertLookup(ApplyAll(s, init), op, area, mes);
      if WritesTo(op, area, mes) {
        assert LastWrite(ops, area, mes) == Some(|ops| - 1);
      } else {
        assert LastWrite(ops, area, mes) == LastWrite(init, area, mes);
        ApplyAllLookup(s, init, area, mes);
      }
    }
  }

  /** The table as a mutable object, the way the dashboard uses the remote store. */
  class RecordStore {
    var records: seq<Record>
    var nextId: nat

    function Snapshot(): State
      reads this
    {
      State(records, nextId)
    }

    /** An empty table. */
    constructor ()
      ensures Snapshot() == State([], 0)
    {
      records := [];
      nextId := 0;
    }

    /** `select("id").match({"area": area, "mes": mes})`, then the id of `.data[0]`. */
    method FindId(area: string, mes: string) returns (id: Option<nat>)
      ensures id == MatchId(records, area, mes)
    {
      var k := 0;
      while k < |records|
        invariant 0 <= k <= |records|
        invariant forall j :: 0 <= j < k ==> !Matches(records[j], area, mes)
      {
        if Matches(records[k], area, mes) {
          assert FirstMatch(records, area, mes) == Some(k);
          return Some(records[k].id);
        }
        k := k + 1;
      }
      id := None;
    }

    /** `update({"em_dia": emDia, "vencido": vencido}).eq("id", id)`. */
    method UpdateCounts(id: nat, emDia: int, vencido: int)
      modifies this
      ensures records == WithCounts(old(records), id, emDia, vencido)
      ensures nextId == old(nextId)
    {
      var k := 0;
      while k < |records|
        invariant 0 <= k <= |records| == |old(records)|
        invariant forall j :: 0 <= j < k ==> records[j] == WithCounts(old(records), id, emDia, vencido)[j]
        invariant forall j :: k <= j < |records| ==> records[j] == old(records)[j]
        invariant nextId == old(nextId)
      {
        if records[k].id == id {
          records := records[k := records[k].(emDia := emDia, vencido := vencido)];
        }
        k := k + 1;
      }
    }

    /** `insert({...})`: a new record, with the next id. */
    method Insert(area: string, mes: string, emDia: int, vencido: int)
      modifies this
      ensures records == old(records) + [Record(old(nextId), area, mes, emDia, vencido)]
      ensures nextId == old(nextId) + 1
    {
      records := records + [Record(nextId, area, mes, emDia, vencido)];
      nextId := nextId + 1;
    }

    /** salvar_registro(area, mes, em_dia, vencido). */
    method Save(area: string, mes: string, emDia: int, vencido: int)
      modifies this
      ensures Snapshot() == Upsert(old(Snapshot()), Op(area, mes, emDia, vencido))
    {
      var a := Normalize(area);
      var m := Normalize(mes);
      var found := FindId(a, m);
      if found.Some? {
        UpdateCounts(found.value, emDia, vencido);
      } else {
        Insert(a, m, emDia, vencido);
      }
    }
  }
}
