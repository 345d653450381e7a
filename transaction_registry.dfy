/**
 * The backend's transaction registry (src-tauri/src/transactions/mod.rs).
 *
 * `Transactions` holds the registry, a vector of references kept sorted by id
 * and searched by binary search, and the id counter; `sent` is the log of
 * messages handed to the WebSocket (or, without one, to the webview event bus).
 * `TransactionInner` is one job's handle with its sticky `aborted` flag.
 */
module TransactionRegistry {
  import opened Wrappers
  import opened Bytes
  import opened SortedSearch
  import W = WireFrames

  const U32_MODULUS: int := 0x1_0000_0000

  /** The message a handle dropped without finishing reports: the bytes of "ERR_UNKNOWN". */
  const ERR_UNKNOWN: seq<byte> := [69, 82, 82, 95, 85, 78, 75, 78, 79, 87, 78]

  /**
   * `progress_as_int`: progress as a fraction, scaled to hundredths of a
   * percent by `(progress * 10000.) as u16`, which truncates toward zero and
   * saturates at 0 and 65535, then capped at 10000.
   */
  function ProgressAsInt(progress: real): (r: u16)
    ensures r <= 10000
    ensures progress <= 0.0 ==> r == 0
    ensures progress >= 1.0 ==> r == 10000
    ensures 0.0 <= progress <= 1.0 ==> r as real <= progress * 10000.0 < r as real + 1.0
  {
    var scaled := progress * 10000.0;
    var cast: u16 := if scaled <= 0.0 then 0 else if scaled >= 65535.0 then 65535 else scaled.Floor;
    if cast < 10000 then cast else 10000
  }

  /** The ids of a registry vector, in order. */
  function IdsOf(refs: seq<TransactionInner>): seq<int>
  {
    seq(|refs|, i requires 0 <= i < |refs| => refs[i].id)
  }

  class TransactionInner {
    const id: u32
    var aborted: bool

    constructor (id: u32)
      ensures this.id == id && !aborted
    {
      this.id := id;
      aborted := false;
    }

    /** `abort`: set the flag and remove the entry with this id from the registry. */
    method Abort(reg: Transactions)
      requires reg.Valid()
      modifies this, reg`refs
      ensures aborted && reg.Valid()
      ensures reg.refs == WithoutId(old(reg.refs), id)
    {
      aborted := true;
      reg.RemoveId(id);
      forall r | r in reg.refs
        ensures r.id < reg.counter && !r.aborted
      {
        WithoutIdMember(old(reg.refs), id, r);
      }
    }

    method Data(reg: Transactions, data: W.Json)
      modifies reg`sent
      ensures reg.sent == old(reg.sent) + reg.Out(W.Data(id, data))
    {
      reg.Emit(W.Data(id, data));
    }

    method Status(reg: Transactions, status: seq<byte>)
      modifies reg`sent
      ensures reg.sent == old(reg.sent) + reg.Out(W.Status(id, status))
    {
      reg.Emit(W.Status(id, status));
    }

    /** `progress`: nothing once aborted. */
    method Progress(reg: Transactions, progress: real)
      modifies reg`sent
      ensures reg.sent == old(reg.sent) + (if aborted then [] else reg.Out(W.Progress(id, ProgressAsInt(progress))))
    {
      if !aborted {
        reg.Emit(W.Progress(id, ProgressAsInt(progress)));
      }
    }

    /** `progress_incr`: nothing once aborted. */
    method ProgressIncr(reg: Transactions, progress: real)
      modifies reg`sent
      ensures reg.sent == old(reg.sent) + (if aborted then [] else reg.Out(W.IncrProgress(id, ProgressAsInt(progress))))
    {
      if !aborted {
        reg.Emit(W.IncrProgress(id, ProgressAsInt(progress)));
      }
    }

    /** `error`: abort, then emit the error. */
    method Error(reg: Transactions, msg: seq<byte>, data: W.Json)
      requires reg.Valid()
      modifies this, reg`refs, reg`sent
      ensures aborted && reg.Valid()
      ensures reg.refs == WithoutId(old(reg.refs), id)
      ensures reg.sent == old(reg.sent) + reg.Out(W.Error(id, msg, data))
    {
      Abort(reg);
      reg.Emit(W.Error(id, msg, data));
    }

    /** `finished`: abort, then emit the result (the debug-only assertion is not part of release builds). */
    method Finished(reg: Transactions, data: W.Json)
      requires reg.Valid()
      modifies this, reg`refs, reg`sent
      ensures aborted && reg.Valid()
      ensures reg.refs == WithoutId(old(reg.refs), id)
      ensures reg.sent == old(reg.sent) + reg.Out(W.Finished(id, data))
    {
      Abort(reg);
      reg.Emit(W.Finished(id, data));
    }

    /** `cancel`: abort without emitting anything. */
    method Cancel(reg: Transactions)
      requires reg.Valid()
      modifies this, reg`refs
      ensures aborted && reg.Valid()
      ensures reg.refs == WithoutId(old(reg.refs), id)
    {
      Abort(reg);
    }

    /** `drop`: a handle dropped before it was aborted reports ERR_UNKNOWN. */
    method Drop(reg: Transactions)
      requires reg.Valid()
      modifies this, reg`refs, reg`sent
      ensures aborted && reg.Valid()
      ensures old(aborted) ==> reg.refs == old(reg.refs) && reg.sent == old(reg.sent)
      ensures !old(aborted) ==>
        (reg.refs == WithoutId(old(reg.refs), id)) &&
        reg.sent == old(reg.sent) + reg.Out(W.Error(id, ERR_UNKNOWN, W.Null))
    {
      if !aborted {
        Error(reg, ERR_UNKNOWN, W.Null);
        Abort(reg);
        WithoutIdTwice(old(reg.refs), id);
      }
    }
  }

  class Transactions {
    var refs: seq<TransactionInner>
    var counter: u32
    var sent: seq<W.TransactionMessage>
    /** In CLI mode `emit` returns at once. */
    const cliMode: bool

    /** The registry is sorted by id without repeats; every id was issued and every entry is live. */
    ghost predicate Valid()
      reads this, refs
    {
      StrictlySorted(IdsOf(refs)) &&
      forall r :: r in refs ==> r.id < counter && !r.aborted
    }

    constructor (cliMode: bool)
      ensures Valid() && refs == [] && counter == 0 && sent == [] && this.cliMode == cliMode
    {
      refs := [];
      counter := 0;
      sent := [];
      this.cliMode := cliMode;
    }

    /** What `emit` sends for a message. */
    function Out(m: W.TransactionMessage): seq<W.TransactionMessage>
    {
      if cliMode then [] else [m]
    }

    method Emit(m: W.TransactionMessage)
      modifies this`sent
      ensures sent == old(sent) + Out(m)
    {
      if !cliMode {
        sent := sent + [m];
      }
    }

    /** `find`: the live transaction with this id, if it is registered. */
    method Find(id: u32) returns (r: Option<TransactionInner>)
      requires Valid()
      ensures r.Some? <==> id in IdsOf(refs)
      ensures r.Some? ==> r.value in refs && r.value.id == id && !r.value.aborted
    {
      var found := BinarySearch(IdsOf(refs), id);
      if found.Found? {
        return Some(refs[found.pos]);
      }
      return None;
    }

    /** The removal `abort` schedules: drop the entry with this id, if there is one. */
    method RemoveId(id: u32)
      requires StrictlySorted(IdsOf(refs))
      modifies this`refs
      ensures StrictlySorted(IdsOf(refs))
      ensures refs == WithoutId(old(refs), id)
    {
      var found := BinarySearch(IdsOf(refs), id);
      if found.Found? {
        var pos := found.pos;
        var ids := IdsOf(refs);
        RemoveKeepsSorted(ids, pos);
        assert IdsOf(refs[..pos] + refs[pos + 1..]) == ids[..pos] + ids[pos + 1..];
        WithoutIdAt(refs, pos, id);
        refs := refs[..pos] + refs[pos + 1..];
      } else {
        NotInIds(refs, id);
        WithoutIdAbsent(refs, id);
      }
    }

    /** `new`: take the next id from the counter (which wraps like an `AtomicU32`) and append the entry. */
    method New() returns (t: TransactionInner)
      requires Valid()
      modifies this`refs, this`counter
      ensures fresh(t) && t.id == old(counter) && !t.aborted
      ensures refs == old(refs) + [t]
      ensures counter == (old(counter) + 1) % U32_MODULUS
      ensures old(counter) + 1 < U32_MODULUS ==> Valid()
    {
      t := new TransactionInner(counter);
      counter := (counter + 1) % U32_MODULUS;
      assert IdsOf(refs + [t]) == IdsOf(refs) + [t.id];
      refs := refs + [t];
    }
  }

  /** A strictly sorted registry holds at most one entry per id. */
  lemma UniqueIds(refs: seq<TransactionInner>, r: TransactionInner, q: TransactionInner)
    requires StrictlySorted(IdsOf(refs)) && r in refs && q in refs && r.id == q.id
    ensures r == q
  {
    var i :| 0 <= i < |refs| && refs[i] == r;
    var j :| 0 <= j < |refs| && refs[j] == q;
    assert IdsOf(refs)[i] == r.id && IdsOf(refs)[j] == q.id;
  }

  /** The `cancel_transaction` command: cancel the registered transaction with this id, if any. */
  method CancelTransaction(reg: Transactions, id: u32)
    requires reg.Valid()
    modifies reg`refs, reg.refs
    ensures reg.Valid() && reg.sent == old(reg.sent)
    ensures reg.refs == WithoutId(old(reg.refs), id)
    ensures forall r :: r in old(reg.refs) && r.id == id ==> r.aborted
  {
    var t := reg.Find(id);
    if t.Some? {
      ghost var before := reg.refs;
      t.value.Cancel(reg);
      forall r | r in before && r.id == id
        ensures r.aborted
      {
        UniqueIds(before, r, t.value);
      }
    } else {
      NotInIds(reg.refs, id);
      WithoutIdAbsent(reg.refs, id);
    }
  }

  /** The registry without the entry for `id`, the others in their order. */
  function WithoutId(refs: seq<TransactionInner>, id: u32): seq<TransactionInner>
  {
    if refs == [] then []
    else (if refs[0].id == id then [] else [refs[0]]) + WithoutId(refs[1..], id)
  }

  /** Exactly the entries with another id stay. */
  lemma {:induction false} WithoutIdMember(refs: seq<TransactionInner>, id: u32, r: TransactionInner)
    ensures r in WithoutId(refs, id) <==> r in refs && r.id != id
  {
    if refs != [] {
      WithoutIdMember(refs[1..], id, r);
      assert refs == [refs[0]] + refs[1..];
    }
  }

  lemma {:induction false} WithoutIdAppend(a: seq<TransactionInner>, b: seq<TransactionInner>, id: u32)
    ensures WithoutId(a + b, id) == WithoutId(a, id) + WithoutId(b, id)
  {
    if a == [] {
      assert a + b == b;
    } else {
      assert (a + b)[0] == a[0] && (a + b)[1..] == a[1..] + b;
      WithoutIdAppend(a[1..], b, id);
    }
  }

  /** Removing an id a second time changes nothing, as the second `abort` in `drop` relies on. */
  lemma WithoutIdTwice(refs: seq<TransactionInner>, id: u32)
    ensures WithoutId(WithoutId(refs, id), id) == WithoutId(refs, id)
  {
    var once := WithoutId(refs, id);
    forall i | 0 <= i < |once|
      ensures once[i].id != id
    {
      WithoutIdMember(refs, id, once[i]);
    }
    WithoutIdAbsent(once, id);
  }

  /** A registry without the id is left as it is. */
  lemma {:induction false} WithoutIdAbsent(refs: seq<TransactionInner>, id: u32)
    requires forall i :: 0 <= i < |refs| ==> refs[i].id != id
    ensures WithoutId(refs, id) == refs
  {
    if refs != [] {
      WithoutIdAbsent(refs[1..], id);
      assert refs == [refs[0]] + refs[1..];
    }
  }

  lemma NotInIds(refs: seq<TransactionInner>, id: u32)
    requires id !in IdsOf(refs)
    ensures forall i :: 0 <= i < |refs| ==> refs[i].id != id
  {
    forall i | 0 <= i < |refs|
      ensures refs[i].id != id
    {
      assert IdsOf(refs)[i] == refs[i].id;
    }
  }

  /** In a registry sorted without repeats, the entry found for the id is the only one removed. */
  lemma WithoutIdAt(refs: seq<TransactionInner>, pos: nat, id: u32)
    requires StrictlySorted(IdsOf(refs)) && pos < |refs| && refs[pos].id == id
    ensures WithoutId(refs, id) == refs[..pos] + refs[pos + 1..]
  {
    var ids := IdsOf(refs);
    var before, after := refs[..pos], refs[pos + 1..];
    assert WithoutId(before, id) == before by {
      forall i | 0 <= i < |before|
        ensures before[i].id != id
      {
        assert ids[i] < ids[pos];
      }
      WithoutIdAbsent(before, id);
    }
    assert WithoutId(after, id) == after by {
      forall i | 0 <= i < |after|
        ensures after[i].id != id
      {
        assert ids[pos] < ids[pos + 1 + i];
      }
      WithoutIdAbsent(after, id);
    }
    var rest := [refs[pos]] + after;
    assert WithoutId(refs, id) == WithoutId(before, id) + WithoutId(rest, id) by {
      assert refs == before + rest;
      WithoutIdAppend(before, rest, id);
    }
    assert WithoutId(rest, id) == WithoutId(after, id) by {
      assert rest[0] == refs[pos] && rest[1..] == after;
    }
  }
}
