/** Entries kept under random identifiers, and the translation of a batch that names keys into one that names
    identifiers.

    A store in random-key mode is a map from identifiers to rows, where a row says which key it belongs to.
    `Represents` ties such a map to the map from keys that it stands for.  A translation carries a table along;
    `Tracks` says what the table knows, and `Simulates` what the output does, wherever it is stopped. */
module Rehome {
  /** The random identifiers in the order in which they will be drawn; none is blank and none comes twice. */
  datatype IdSupply = IdSupply(at: nat -> string, indexOf: string -> nat) {
    ghost predicate Valid() {
      forall i: nat :: at(i) != "" && indexOf(at(i)) == i
    }

    /** No identifier that is still to be drawn is in use. */
    ghost predicate Unused(used: set<string>, next: nat) {
      forall i: nat | i >= next :: at(i) !in used
    }
  }

  datatype Row<+E> = Row(key: string, entry: E)
  type Rows<+E> = map<string, Row<E>>

  ghost predicate Represents<E>(rows: Rows<E>, m: map<string, E>) {
    && (forall id | id in rows :: rows[id].key in m && m[rows[id].key] == rows[id].entry)
    && (forall k | k in m :: exists id :: id in rows && rows[id].key == k)
    && (forall i, j | i in rows && j in rows && rows[i].key == rows[j].key :: i == j)
  }

  /** Rows stand for at most one map, so the map can be read off the stored rows alone. */
  lemma RepresentsOnlyOne<E>(rows: Rows<E>, m1: map<string, E>, m2: map<string, E>)
    requires Represents(rows, m1) && Represents(rows, m2)
    ensures m1 == m2
  {
    forall k | k in m1
      ensures k in m2 && m1[k] == m2[k]
    {
      var id :| id in rows && rows[id].key == k;
    }
    forall k | k in m2
      ensures k in m1
    {
      var id :| id in rows && rows[id].key == k;
    }
    assert m1.Keys == m2.Keys;
  }

  /** `id` is where `key` lives; blank when it lives nowhere. */
  ghost predicate Home<E>(rows: Rows<E>, key: string, id: string) {
    if id == "" then forall i | i in rows :: rows[i].key != key
    else id in rows && rows[id].key == key
  }

  lemma HomeOfAbsent<E>(rows: Rows<E>, m: map<string, E>, key: string, id: string)
    requires Represents(rows, m) && Home(rows, key, id)
    ensures key in m <==> id != ""
    ensures id != "" ==> rows[id] == Row(key, m[key])
  {
  }

  lemma SetRow<E>(rows: Rows<E>, m: map<string, E>, id: string, row: Row<E>)
    requires Represents(rows, m)
    requires if id in rows then rows[id].key == row.key else row.key !in m
    ensures Represents(rows[id := row], m[row.key := row.entry])
  {
    var rows', m' := rows[id := row], m[row.key := row.entry];
    forall k | k in m'
      ensures exists i :: i in rows' && rows'[i].key == k
    {
      if k == row.key {
        assert id in rows' && rows'[id].key == k;
      } else {
        var i :| i in rows && rows[i].key == k;
        assert i in rows' && rows'[i].key == k;
      }
    }
  }

  lemma DropRow<E>(rows: Rows<E>, m: map<string, E>, id: string)
    requires Represents(rows, m) && id in rows
    ensures Represents(rows - {id}, m - {rows[id].key})
  {
    var rows', m' := rows - {id}, m - {rows[id].key};
    forall k | k in m'
      ensures exists i :: i in rows' && rows'[i].key == k
    {
      var i :| i in rows && rows[i].key == k;
      assert i in rows' && rows'[i].key == k;
    }
  }

  // ----- the output of a translation --------------------------------------------------------------

  datatype RowOperation<+E> = Place(id: string, row: Row<E>) | Clear(id: string)

  function ApplyRow<E>(rows: Rows<E>, op: RowOperation<E>): Rows<E> {
    match op
    case Place(id, row) => rows[id := row]
    case Clear(id) => rows - {id}
  }

  function ApplyRows<E>(rows: Rows<E>, ops: seq<RowOperation<E>>): Rows<E> {
    if ops == [] then rows
    else ApplyRow(ApplyRows(rows, ops[..|ops| - 1]), ops[|ops| - 1])
  }

  lemma ApplyRowsSnoc<E>(rows: Rows<E>, ops: seq<RowOperation<E>>, op: RowOperation<E>)
    ensures ApplyRows(rows, ops + [op]) == ApplyRow(ApplyRows(rows, ops), op)
  {
    assert (ops + [op])[..|ops|] == ops;
  }

  ghost function Ids<E>(ops: seq<RowOperation<E>>): set<string> {
    set op | op in ops :: op.id
  }

  lemma {:induction false} AppliedIds<E>(rows: Rows<E>, ops: seq<RowOperation<E>>)
    ensures ApplyRows(rows, ops).Keys <= rows.Keys + Ids(ops)
  {
    if ops != [] {
      var init, last := ops[..|ops| - 1], ops[|ops| - 1];
      AppliedIds(rows, init);
      assert forall op | op in init :: op in ops;
      assert last in ops;
      assert Ids(init) <= Ids(ops) && last.id in Ids(ops);
    }
  }

  /** What a translation has put out so far.  `states` are the maps after each plain operation, and stopping the output
      after `n` operations leaves the map with index `at[n]`. */
  datatype Output<E> = Output(ops: seq<RowOperation<E>>, at: seq<nat>, states: seq<map<string, E>>) {
    ghost predicate Simulates(rows: Rows<E>) {
      && |at| == |ops| + 1 && |states| > 0 && at[|ops|] == |states| - 1
      && forall n | 0 <= n <= |ops| :: at[n] < |states| && Represents(ApplyRows(rows, ops[..n]), states[at[n]])
    }

    ghost function Last(): map<string, E> {
      if states == [] then map[] else states[|states| - 1]
    }

    /** The map after the first `n` operations of the output. */
    ghost function After(n: nat): map<string, E> {
      if n < |at| && at[n] < |states| then states[at[n]] else map[]
    }

    /** The rows once all the output has run. */
    ghost function Now(rows: Rows<E>): Rows<E> {
      ApplyRows(rows, ops)
    }

    ghost function Emit(op: RowOperation<E>, state: map<string, E>): Output<E> {
      Output(ops + [op], at + [|states|], states + [state])
    }

    ghost function Skip(): Output<E> {
      Output(ops, (if at == [] then [] else at[..|at| - 1]) + [|states|], states + [Last()])
    }
  }

  ghost function Nothing<E>(m: map<string, E>): Output<E> {
    Output([], [0], [m])
  }

  lemma SimulatesNothing<E>(rows: Rows<E>, m: map<string, E>)
    requires Represents(rows, m)
    ensures Nothing(m).Simulates(rows)
  {
    var none: seq<RowOperation<E>> := [];
    assert none[..0] == none;
  }

  lemma SimulatesEmit<E>(rows: Rows<E>, out: Output<E>, op: RowOperation<E>, state: map<string, E>)
    requires out.Simulates(rows) && Represents(ApplyRow(out.Now(rows), op), state)
    ensures out.Emit(op, state).Simulates(rows)
  {
    hide Represents, ApplyRow, ApplyRows;
    var out' := out.Emit(op, state);
    ApplyRowsSnoc(rows, out.ops, op);
    forall n | 0 <= n <= |out'.ops|
      ensures out'.at[n] < |out'.states| && Represents(ApplyRows(rows, out'.ops[..n]), out'.states[out'.at[n]])
    {
      if n <= |out.ops| {
        assert out'.ops[..n] == out.ops[..n] && out'.at[n] == out.at[n];
      } else {
        assert out'.ops[..n] == out'.ops;
      }
    }
  }

  lemma SimulatesSkip<E>(rows: Rows<E>, out: Output<E>)
    requires out.Simulates(rows)
    ensures out.Skip().Simulates(rows)
  {
    hide Represents, ApplyRows;
    var out' := out.Skip();
    forall n | 0 <= n <= |out'.ops|
      ensures out'.at[n] < |out'.states| && Represents(ApplyRows(rows, out'.ops[..n]), out'.states[out'.at[n]])
    {
      assert out.at[n] < |out.states| && Represents(ApplyRows(rows, out.ops[..n]), out.states[out.at[n]]);
    }
  }

  // ----- the table of a translation ---------------------------------------------------------------

  /** What the table knows.  A key with an identifier was put by this batch and lives there; a key with a blank
      was deleted by this batch; any other key still lives where it lived before the batch. */
  ghost predicate Tracks<E>(resolved: map<string, string>, before: Rows<E>, now: Rows<E>) {
    && (forall k | k in resolved :: Home(now, k, resolved[k]))
    && (forall id | id in before && before[id].key !in resolved :: id in now && now[id].key == before[id].key)
    && (forall id | id in now && now[id].key !in resolved :: id in before && now[id].key == before[id].key)
  }

  /** The identifier to use next for a key: from the table, else from a search of the stored rows. */
  lemma TrackedHome<E>(resolved: map<string, string>, before: Rows<E>, now: Rows<E>, key: string, id: string)
    requires Tracks(resolved, before, now)
    requires if key in resolved then id == resolved[key] else Home(before, key, id)
    ensures Home(now, key, id)
  {
  }

  lemma TracksPut<E>(resolved: map<string, string>, before: Rows<E>, now: Rows<E>, id: string, row: Row<E>)
    requires Tracks(resolved, before, now) && id != ""
    requires id in now ==> now[id].key == row.key
    ensures Tracks(resolved[row.key := id], before, now[id := row])
  {
    var resolved', now' := resolved[row.key := id], now[id := row];
    forall k | k in resolved'
      ensures Home(now', k, resolved'[k])
    {
      if k != row.key {
        assert Home(now, k, resolved[k]);
      }
    }
  }

  lemma TracksDelete<E>(resolved: map<string, string>, before: Rows<E>, now: Rows<E>, m: map<string, E>, id: string)
    requires Tracks(resolved, before, now) && Represents(now, m) && id in now
    ensures Tracks(resolved[now[id].key := ""], before, now - {id})
  {
    var key := now[id].key;
    var resolved', now' := resolved[key := ""], now - {id};
    forall k | k in resolved'
      ensures Home(now', k, resolved'[k])
    {
      if k != key {
        assert Home(now, k, resolved[k]);
      }
    }
  }

  // ----- one translated operation after the other ------------------------------------------------------

  /** A translation under way, from the stored rows and with identifiers from `next` on still to be drawn. */
  ghost predicate Translated<E>(ids: IdSupply, next: nat, rows: Rows<E>, resolved: map<string, string>, out: Output<E>) {
    && out.Simulates(rows) && Tracks(resolved, rows, out.Now(rows))
    && ids.Unused(rows.Keys, next) && ids.Unused(Ids(out.ops), next)
  }

  lemma TranslatedNothing<E>(ids: IdSupply, next: nat, rows: Rows<E>, m: map<string, E>)
    requires Represents(rows, m) && ids.Unused(rows.Keys, next)
    ensures Translated(ids, next, rows, map[], Nothing(m))
  {
    SimulatesNothing(rows, m);
  }

  lemma LastRepresented<E>(rows: Rows<E>, out: Output<E>)
    requires out.Simulates(rows)
    ensures Represents(out.Now(rows), out.Last())
  {
    hide Represents, ApplyRows;
    var n := |out.ops|;
    assert out.ops[..n] == out.ops;
    assert Represents(ApplyRows(rows, out.ops[..n]), out.states[out.at[n]]);
  }

  /** The identifier found for a key is blank exactly when the key is in the map no more, and its row otherwise. */
  lemma TranslatedHome<E>(ids: IdSupply, next: nat, rows: Rows<E>, resolved: map<string, string>, out: Output<E>,
                          key: string, id: string)
    requires Translated(ids, next, rows, resolved, out)
    requires if key in resolved then id == resolved[key] else Home(rows, key, id)
    ensures key in out.Last() <==> id != ""
    ensures id != "" ==> id in out.Now(rows) && out.Now(rows)[id] == Row(key, out.Last()[key]) && ids.Unused({id}, next)
  {
    TrackedHome(resolved, rows, out.Now(rows), key, id);
    LastRepresented(rows, out);
    HomeOfAbsent(out.Now(rows), out.Last(), key, id);
    AppliedIds(rows, out.ops);
  }

  lemma TranslatedSkip<E>(ids: IdSupply, next: nat, rows: Rows<E>, resolved: map<string, string>, out: Output<E>)
    requires Translated(ids, next, rows, resolved, out)
    ensures Translated(ids, next, rows, resolved, out.Skip())
  {
    SimulatesSkip(rows, out);
  }

  lemma IdsSnoc<E>(ops: seq<RowOperation<E>>, op: RowOperation<E>)
    ensures Ids(ops + [op]) == Ids(ops) + {op.id}
  {
    assert forall x :: x in ops + [op] <==> x in ops || x == op;
  }

  lemma TranslatedDelete<E>(ids: IdSupply, next: nat, rows: Rows<E>, resolved: map<string, string>, out: Output<E>,
                            key: string, id: string)
    requires Translated(ids, next, rows, resolved, out)
    requires id in out.Now(rows) && out.Now(rows)[id].key == key && ids.Unused({id}, next)
    ensures Translated(ids, next, rows, resolved[key := ""], out.Emit(Clear(id), out.Last() - {key}))
  {
    hide Represents, Tracks, ApplyRows;
    var now := out.Now(rows);
    LastRepresented(rows, out);
    DropRow(now, out.Last(), id);
    SimulatesEmit(rows, out, Clear(id), out.Last() - {key});
    TracksDelete(resolved, rows, now, out.Last(), id);
    ApplyRowsSnoc(rows, out.ops, Clear(id));
    IdsSnoc(out.ops, Clear(id));
  }

  lemma TranslatedPut<E>(ids: IdSupply, next: nat, rows: Rows<E>, resolved: map<string, string>, out: Output<E>,
                         id: string, row: Row<E>, next': nat)
    requires Translated(ids, next, rows, resolved, out) && id != "" && next <= next' && ids.Unused({id}, next')
    requires if id in out.Now(rows) then out.Now(rows)[id].key == row.key else row.key !in out.Last()
    ensures Translated(ids, next', rows, resolved[row.key := id],
                       out.Emit(Place(id, row), out.Last()[row.key := row.entry]))
  {
    hide Represents, Tracks, ApplyRows;
    var now := out.Now(rows);
    LastRepresented(rows, out);
    SetRow(now, out.Last(), id, row);
    SimulatesEmit(rows, out, Place(id, row), out.Last()[row.key := row.entry]);
    TracksPut(resolved, rows, now, id, row);
    ApplyRowsSnoc(rows, out.ops, Place(id, row));
    IdsSnoc(out.ops, Place(id, row));
  }

  /** Drawing identifiers that are not used spoils nothing. */
  lemma TranslatedLater<E>(ids: IdSupply, next: nat, rows: Rows<E>, resolved: map<string, string>, out: Output<E>, next': nat)
    requires Translated(ids, next, rows, resolved, out) && next <= next'
    ensures Translated(ids, next', rows, resolved, out)
  {
  }

  /** Wherever the output stops, the rows stand for the map after some prefix of the plain operations, and use no
      identifier that is still to be drawn. */
  lemma TranslatedPrefix<E>(ids: IdSupply, next: nat, rows: Rows<E>, resolved: map<string, string>, out: Output<E>, n: nat)
    requires Translated(ids, next, rows, resolved, out) && n <= |out.ops|
    ensures Represents(ApplyRows(rows, out.ops[..n]), out.After(n))
    ensures n < |out.at| && out.at[n] < |out.states| && (n == |out.ops| ==> out.at[n] == |out.states| - 1)
    ensures ids.Unused(ApplyRows(rows, out.ops[..n]).Keys, next)
  {
    AppliedIds(rows, out.ops[..n]);
    assert forall op | op in out.ops[..n] :: op in out.ops;
    assert Ids(out.ops[..n]) <= Ids(out.ops);
  }
}
