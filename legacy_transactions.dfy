/**
 * The older backend registry (src-tauri/src/transactions.rs). It keeps the
 * same sorted registry and sticky `aborted` flag as the newer one, but ids are
 * `usize`, every emission is a named webview event carrying `(id, data)`, and
 * `error` only emits: it neither aborts nor leaves the registry.
 */
module LegacyTransactions {
  import opened Wrappers
  import opened Bytes
  import opened SortedSearch
  import TransactionRegistry
  import W = WireFrames

  /** The serialised `data` of an event. */
  datatype EventData = Number(n: u16) | Text(s: seq<byte>) | Value(j: W.Json)

  /** `webview_emit!(name, (id, data))`. */
  datatype WebviewEvent = WebviewEvent(name: string, id: nat, data: EventData)

  function IdsOf(refs: seq<Transaction>): seq<int>
  {
    seq(|refs|, i requires 0 <= i < |refs| => refs[i].id)
  }

  class Transaction {
    const id: nat
    var aborted: bool

    constructor (id: nat)
      ensures this.id == id && !aborted
    {
      this.id := id;
      aborted := false;
    }

    /** `abort`: set the flag and remove the entry with this id from the registry. */
    method Abort(reg: Registry)
      requires reg.Valid()
      modifies this, reg`refs
      ensures aborted && reg.Valid() && reg.emitted == old(reg.emitted)
      ensures reg.refs == WithoutId(old(reg.refs), id)
    {
      aborted := true;
      reg.RemoveId(id);
      forall r | r in reg.refs
        ensures r.id < reg.counter && !r.aborted
      {
        WithoutIdMember(old(reg.refs), id, r);
      }
    }

    method Data(reg: Registry, data: EventData)
      modifies reg`emitted
      ensures reg.emitted == old(reg.emitted) + [WebviewEvent("TransactionData", id, data)]
    {
      reg.Emit(WebviewEvent("TransactionData", id, data));
    }

    method Status(reg: Registry, status: seq<byte>)
      modifies reg`emitted
      ensures reg.emitted == old(reg.emitted) + [WebviewEvent("TransactionStatus", id, Text(status))]
    {
      reg.Emit(WebviewEvent("TransactionStatus", id, Text(status)));
    }

    /** `progress`: nothing once aborted. */
    method Progress(reg: Registry, progress: real)
      modifies reg`emitted
      ensures aborted ==> reg.emitted == old(reg.emitted)
      ensures !aborted ==>
        reg.emitted == old(reg.emitted) + [WebviewEvent("TransactionProgress", id, Number(TransactionRegistry.ProgressAsInt(progress)))]
    {
      if !aborted {
        reg.Emit(WebviewEvent("TransactionProgress", id, Number(TransactionRegistry.ProgressAsInt(progress))));
      }
    }

    /** `progress_incr`: nothing once aborted. */
    method ProgressIncr(reg: Registry, progress: real)
      modifies reg`emitted
      ensures aborted ==> reg.emitted == old(reg.emitted)
      ensures !aborted ==>
        reg.emitted == old(reg.emitted) + [WebviewEvent("TransactionIncrProgress", id, Number(TransactionRegistry.ProgressAsInt(progress)))]
    {
      if !aborted {
        reg.Emit(WebviewEvent("TransactionIncrProgress", id, Number(TransactionRegistry.ProgressAsInt(progress))));
      }
    }

    /** `error`: only emits; the flag and the registry are left as they are. */
    method Error(reg: Registry, error: EventData)
      modifies reg`emitted
      ensures reg.emitted == old(reg.emitted) + [WebviewEvent("TransactionError", id, error)]
    {
      reg.Emit(WebviewEvent("TransactionError", id, error));
    }

    /** `finished`: abort, then emit the result. */
    method Finished(reg: Registry, data: EventData)
      requires reg.Valid()
      modifies this, reg`refs, reg`emitted
      ensures aborted && reg.Valid()
      ensures reg.refs == WithoutId(old(reg.refs), id)
      ensures reg.emitted == old(reg.emitted) + [WebviewEvent("TransactionFinished", id, data)]
    {
      Abort(reg);
      reg.Emit(WebviewEvent("TransactionFinished", id, data));
    }

    /** `cancel`: abort without emitting anything. */
    method Cancel(reg: Registry)
      requires reg.Valid()
      modifies this, reg`refs
      ensures aborted && reg.Valid() && reg.emitted == old(reg.emitted)
      ensures reg.refs == WithoutId(old(reg.refs), id)
    {
      Abort(reg);
    }

    /** `drop`: a handle dropped before it was aborted reports ERR_UNKNOWN, then aborts. */
    method Drop(reg: Registry)
      requires reg.Valid()
      modifies this, reg`refs, reg`emitted
      ensures aborted && reg.Valid()
      ensures old(aborted) ==> reg.refs == old(reg.refs) && reg.emitted == old(reg.emitted)
      ensures !old(aborted) ==>
        (reg.refs == WithoutId(old(reg.refs), id)) &&
        reg.emitted == old(reg.emitted) + [WebviewEvent("TransactionError", id, Text(TransactionRegistry.ERR_UNKNOWN))]
    {
      if !aborted {
        Error(reg, Text(TransactionRegistry.ERR_UNKNOWN));
        Abort(reg);
      }
    }
  }

  class Registry {
    var refs: seq<Transaction>
    var counter: nat
    var emitted: seq<WebviewEvent>

    /** Sorted by id without repeats, every id issued, every entry live. */
    ghost predicate Valid()
      reads this`refs, this`counter, refs
    {
      StrictlySorted(IdsOf(refs)) &&
      forall r :: r in refs ==> r.id < counter && !r.aborted
    }

    constructor ()
      ensures Valid() && refs == [] && counter == 0 && emitted == []
    {
      refs := [];
      counter := 0;
      emitted := [];
    }

    method Emit(e: WebviewEvent)
      modifies this`emitted
      ensures emitted == old(emitted) + [e]
    {
      emitted := emitted + [e];
    }

    /** `find`: the live transaction with this id, if it is registered. */
    method Find(id: nat) returns (r: Option<Transaction>)
      requires Valid()
      ensures r.Some? <==> id in IdsOf(refs)
      ensures r.Some? ==> r.value in refs && r.value.id == id && !r.value.aborted
    {
      var found := BinarySearch(IdsOf(refs), id);
      if found.Found? {
        return Some(refs[found.pos]);
      }
      return None;
    }

    /** The removal `abort` schedules. */
    method RemoveId(id: nat)
      requires StrictlySorted(IdsOf(refs))
      modifies this`refs
      ensures StrictlySorted(IdsOf(refs))
      ensures refs == WithoutId(old(refs), id)
    {
      var found := BinarySearch(IdsOf(refs), id);
      var ids := IdsOf(refs);
      if found.Found? {
        var pos := found.pos;
        RemoveKeepsSorted(ids, pos);
        assert IdsOf(refs[..pos] + refs[pos + 1..]) == ids[..pos] + ids[pos + 1..];
        WithoutIdAt(refs, pos, id);
        refs := refs[..pos] + refs[pos + 1..];
      } else {
        NotInIds(refs, id);
        WithoutIdAbsent(refs, id);
      }
    }

    /** `new`: the next id from the counter; the entry is appended, so the registry stays sorted. */
    method New() returns (t: Transaction)
      requires Valid()
      modifies this`refs, this`counter
      ensures fresh(t) && t.id == old(counter) && !t.aborted
      ensures refs == old(refs) + [t] && counter == old(counter) + 1
      ensures Valid()
    {
      t := new Transaction(counter);
      counter := counter + 1;
      assert IdsOf(refs + [t]) == IdsOf(refs) + [t.id];
      refs := refs + [t];
    }
  }

  /** The `cancel_transaction` command. */
  method CancelTransaction(reg: Registry, id: nat)
    requires reg.Valid()
    modifies reg`refs, reg.refs
    ensures reg.Valid() && reg.emitted == old(reg.emitted)
    ensures reg.refs == WithoutId(old(reg.refs), id)
  {
    var t := reg.Find(id);
    if t.Some? {
      t.value.Cancel(reg);
    } else {
      NotInIds(reg.refs, id);
      WithoutIdAbsent(reg.refs, id);
    }
  }

  /** The registry without the entry for `id`, the others in their order. */
  function WithoutId(refs: seq<Transaction>, id: nat): seq<Transaction>
  {
    if refs == [] then []
    else (if refs[0].id == id then [] else [refs[0]]) + WithoutId(refs[1..], id)
  }

  /** Exactly the entries with another id stay. */
  lemma {:induction false} WithoutIdMember(refs: seq<Transaction>, id: nat, r: Transaction)
    ensures r in WithoutId(refs, id) <==> r in refs && r.id != id
  {
    if refs != [] {
      WithoutIdMember(refs[1..], id, r);
      assert refs == [refs[0]] + refs[1..];
    }
  }

  lemma {:induction false} WithoutIdAppend(a: seq<Transaction>, b: seq<Transaction>, id: nat)
    ensures WithoutId(a + b, id) == WithoutId(a, id) + WithoutId(b, id)
  {
    if a == [] {
      assert a + b == b;
    } else {
      assert (a + b)[0] == a[0] && (a + b)[1..] == a[1..] + b;
      WithoutIdAppend(a[1..], b, id);
    }
  }

  /** A registry without the id is left as it is. */
  lemma {:induction false} WithoutIdAbsent(refs: seq<Transaction>, id: nat)
    requires forall i :: 0 <= i < |refs| ==> refs[i].id != id
    ensures WithoutId(refs, id) == refs
  {
    if refs != [] {
      WithoutIdAbsent(refs[1..], id);
      assert refs == [refs[0]] + refs[1..];
    }
  }

  lemma NotInIds(refs: seq<Transaction>, id: nat)
    requires id !in IdsOf(refs)
    ensures forall i :: 0 <= i < |refs| ==> refs[i].id != id
  {
    forall i | 0 <= i < |refs|
      ensures refs[i].id != id
    {
      assert IdsOf(refs)[i] == refs[i].id;
    }
  }

  /** In a registry sorted without repeats, the entries before the one with the id all stay. */
  lemma KeptBefore(refs: seq<Transaction>, pos: nat, id: nat)
    requires StrictlySorted(IdsOf(refs)) && pos < |refs| && refs[pos].id == id
    ensures WithoutId(refs[..pos], id) == refs[..pos]
  {
    var ids, before := IdsOf(refs), refs[..pos];
    forall i | 0 <= i < |before|
      ensures before[i].id != id
    {
      assert ids[i] < ids[pos];
    }
    WithoutIdAbsent(before, id);
  }

  /** In a registry sorted without repeats, the entries after the one with the id all stay. */
  lemma KeptAfter(refs: seq<Transaction>, pos: nat, id: nat)
    requires StrictlySorted(IdsOf(refs)) && pos < |refs| && refs[pos].id == id
    ensures WithoutId(refs[pos + 1..], id) == refs[pos + 1..]
  {
    var ids, after := IdsOf(refs), refs[pos + 1..];
    forall i | 0 <= i < |after|
      ensures after[i].id != id
    {
      assert ids[pos] < ids[pos + 1 + i];
    }
    WithoutIdAbsent(after, id);
  }

  /** In a registry sorted without repeats, the entry found for the id is the only one removed. */
  lemma WithoutIdAt(refs: seq<Transaction>, pos: nat, id: nat)
    requires StrictlySorted(IdsOf(refs)) && pos < |refs| && refs[pos].id == id
    ensures WithoutId(refs, id) == refs[..pos] + refs[pos + 1..]
  {
    var before, after := refs[..pos], refs[pos + 1..];
    KeptBefore(refs, pos, id);
    KeptAfter(refs, pos, id);
    var rest := [refs[pos]] + after;
    assert WithoutId(refs, id) == WithoutId(before, id) + WithoutId(rest, id) by {
      assert refs == before + rest;
      WithoutIdAppend(before, rest, id);
    }
    assert WithoutId(rest, id) == WithoutId(after, id) by {
      assert rest[0] == refs[pos] && rest[1..] == after;
    }
  }
}
