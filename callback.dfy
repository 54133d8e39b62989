/**
 * The callback register: callbacks grouped by callback type, each stored
 * under an identifier handed out at registration. A bucket is a Python
 * dict, so it keeps its entries in insertion order; here it is a sequence
 * of entries whose identifiers are all different.
 */
module Callbacks {
  import opened Wrappers
  import opened Values
  import opened Positions
  import Ids

  type CallbackType = string
  type CallbackId = Ids.Id

  /** A callback: called with the positional arguments of `call`; only the truthiness of its result matters. */
  type Handler = seq<Value> -> Value

  datatype Entry = Entry(id: CallbackId, cb: Handler)

  /** The identifiers of a bucket, in insertion order. */
  function IdsOf(b: seq<Entry>): (r: seq<CallbackId>)
    ensures |r| == |b| && forall i :: 0 <= i < |b| ==> r[i] == b[i].id
  {
    seq(|b|, i requires 0 <= i < |b| => b[i].id)
  }

  /** A bucket is a dict: no identifier occurs twice. */
  ghost predicate Keyed(b: seq<Entry>) {
    Distinct(IdsOf(b))
  }

  /** The bucket of type t, empty when the type was never registered. */
  function Bucket(m: map<CallbackType, seq<Entry>>, t: CallbackType): seq<Entry> {
    if t in m then m[t] else []
  }

  /** The bucket after `pop(cb_id)`: the entry stored under that identifier is gone. */
  function Without(b: seq<Entry>, cbId: int): (r: seq<Entry>)
    ensures |r| <= |b|
    ensures forall e :: e in r <==> e in b && e.id != cbId
  {
    if b == [] then []
    else if b[0].id == cbId then Without(b[1..], cbId)
    else [b[0]] + Without(b[1..], cbId)
  }

  /** The position of an identifier in a bucket. */
  function IndexOf(b: seq<Entry>, cbId: int): (r: Option<nat>)
    ensures r.Some? <==> cbId in IdsOf(b)
    ensures r.Some? ==> r.value < |b| && b[r.value].id == cbId
    ensures r.Some? ==> forall j :: 0 <= j < r.value ==> b[j].id != cbId
  {
    if b == [] then None
    else if b[0].id == cbId then Some(0)
    else
      var rest := IndexOf(b[1..], cbId);
      assert IdsOf(b) == [b[0].id] + IdsOf(b[1..]);
      if rest.Some? then Some(rest.value + 1) else None
  }

  /** `not cb_id or cb_id == key`: the entries `call` invokes. */
  predicate Selected(key: CallbackId, cbId: Option<int>) {
    cbId.None? || cbId.value == 0 || cbId.value == key
  }

  /** An invoked callback whose result is truthy. */
  predicate Hits(e: Entry, cbId: Option<int>, args: seq<Value>) {
    Selected(e.id, cbId) && Truthy(e.cb(args))
  }

  /** The first entry, in insertion order, that is invoked and answers truthily. */
  function FirstHit(b: seq<Entry>, cbId: Option<int>, args: seq<Value>): Option<CallbackId> {
    if b == [] then None
    else if Hits(b[0], cbId, args) then Some(b[0].id)
    else FirstHit(b[1..], cbId, args)
  }

  /** What `call` returns for a bucket. */
  function Outcome(b: seq<Entry>, cbId: Option<int>, exitOnTrue: bool, args: seq<Value>): Option<CallbackId> {
    if exitOnTrue then FirstHit(b, cbId, args) else None
  }

  /** The identifiers of the callbacks `call` invokes, in the order it invokes them. */
  function Invoked(b: seq<Entry>, cbId: Option<int>, exitOnTrue: bool, args: seq<Value>): seq<CallbackId> {
    if b == [] then []
    else
      (if Selected(b[0].id, cbId) then [b[0].id] else [])
      + (if exitOnTrue && Hits(b[0], cbId, args) then [] else Invoked(b[1..], cbId, exitOnTrue, args))
  }

  /** The identifiers of the entries `call` selects, in insertion order. */
  function SelectedIds(b: seq<Entry>, cbId: Option<int>): seq<CallbackId> {
    if b == [] then []
    else (if Selected(b[0].id, cbId) then [b[0].id] else []) + SelectedIds(b[1..], cbId)
  }

  class CallbackRegister {
    var buckets: map<CallbackType, seq<Entry>>

    /** Every bucket is a dict. */
    ghost predicate Valid()
      reads this
    {
      forall t :: t in buckets ==> Keyed(buckets[t])
    }

    /** Every identifier in the register is below n: the generator has not handed out n yet. */
    ghost predicate IssuedBelow(n: int)
      reads this
    {
      forall t, i :: t in buckets && 0 <= i < |buckets[t]| ==> buckets[t][i].id < n
    }

    constructor ()
      ensures buckets == map[] && Valid()
    {
      buckets := map[];
    }

    /**
     * `register_callback(callback_type, cb)`: a fresh identifier; the bucket
     * is created when missing, and the callback is stored last in it.
     */
    method RegisterCallback(t: CallbackType, cb: Handler, src: Ids.IdSource) returns (id: CallbackId)
      requires Valid() && IssuedBelow(src.next)
      modifies this, src
      ensures id == old(src.next) && src.next == id + 1
      ensures buckets == old(buckets)[t := Bucket(old(buckets), t) + [Entry(id, cb)]]
      ensures Valid() && IssuedBelow(src.next)
    {
      id := src.Fresh();
      if t !in buckets {
        buckets := buckets[t := []];
      }
      ghost var before := buckets[t];
      FreshKeyed(before, id, cb);
      buckets := buckets[t := buckets[t] + [Entry(id, cb)]];
    }

    /**
     * `unregister_callback(cb_id, callback_type)` with a type: removes the
     * entry and answers true when the bucket exists and holds the
     * identifier; otherwise nothing changes and the answer is false.
     */
    method UnregisterCallback(cbId: int, t: CallbackType) returns (removed: bool)
      requires Valid()
      modifies this
      ensures removed <==> t in old(buckets) && cbId in IdsOf(old(buckets)[t])
      ensures removed ==> buckets == old(buckets)[t := Without(old(buckets)[t], cbId)]
      ensures !removed ==> buckets == old(buckets)
      ensures Valid()
    {
      if t in buckets {
        if cbId in IdsOf(buckets[t]) {
          WithoutKeyed(buckets[t], cbId);
          buckets := buckets[t := Without(buckets[t], cbId)];
          return true;
        }
      }
      return false;
    }

    /** `callbacks(callback_type)`: the bucket, or an empty one when the type is unknown; no bucket is created. */
    function Callbacks(t: CallbackType): (r: seq<Entry>)
      reads this
      ensures t in buckets ==> r == buckets[t]
      ensures t !in buckets ==> r == []
    {
      Bucket(buckets, t)
    }

    /**
     * `call(callback_type, cb_id, exit_on_true, *args)` with a type: walks
     * the bucket in insertion order, invokes the selected callbacks and,
     * with `exit_on_true`, stops at the first truthy answer and returns its
     * identifier. `called` records the invocations.
     */
    method Call(t: CallbackType, cbId: Option<int>, exitOnTrue: bool, args: seq<Value>)
      returns (r: Option<CallbackId>, ghost called: seq<CallbackId>)
      requires t != ""
      ensures r == Outcome(Callbacks(t), cbId, exitOnTrue, args)
      ensures called == Invoked(Callbacks(t), cbId, exitOnTrue, args)
    {
      var cbs := Callbacks(t);
      called := [];
      var i := 0;
      while i < |cbs|
        invariant 0 <= i <= |cbs|
        invariant Invoked(cbs, cbId, exitOnTrue, args) == called + Invoked(cbs[i..], cbId, exitOnTrue, args)
        invariant Outcome(cbs, cbId, exitOnTrue, args) == Outcome(cbs[i..], cbId, exitOnTrue, args)
      {
        var e := cbs[i];
        var next := i + 1;
        var hit := false;
        if Selected(e.id, cbId) {
          var ret := e.cb(args);
          hit := exitOnTrue && Truthy(ret);
        }
        if hit {
          RoundStops(cbs, i, called, cbId, exitOnTrue, args);
          called := called + [e.id];
          return Some(e.id), called;
        }
        RoundGoesOn(cbs, i, next, called, cbId, exitOnTrue, args);
        called := called + (if Selected(e.id, cbId) then [e.id] else []);
        i := next;
      }
      assert cbs[i..] == [];
      return None, called;
    }
  }

  /** A round of `call`'s loop that ends it: the entry at i is invoked and answers truthily. */
  lemma RoundStops(b: seq<Entry>, i: nat, called: seq<CallbackId>, cbId: Option<int>, exitOnTrue: bool, args: seq<Value>)
    requires i < |b| && exitOnTrue && Hits(b[i], cbId, args)
    requires Invoked(b, cbId, exitOnTrue, args) == called + Invoked(b[i..], cbId, exitOnTrue, args)
    requires Outcome(b, cbId, exitOnTrue, args) == Outcome(b[i..], cbId, exitOnTrue, args)
    ensures Invoked(b, cbId, exitOnTrue, args) == called + [b[i].id]
    ensures Outcome(b, cbId, exitOnTrue, args) == Some(b[i].id)
  {
    assert b[i..][0] == b[i];
  }

  /** A round of `call`'s loop that goes on to the entry at next. */
  lemma RoundGoesOn(b: seq<Entry>, i: nat, next: nat, called: seq<CallbackId>, cbId: Option<int>, exitOnTrue: bool, args: seq<Value>)
    requires i < |b| && next == i + 1 && !(exitOnTrue && Hits(b[i], cbId, args))
    requires Invoked(b, cbId, exitOnTrue, args) == called + Invoked(b[i..], cbId, exitOnTrue, args)
    requires Outcome(b, cbId, exitOnTrue, args) == Outcome(b[i..], cbId, exitOnTrue, args)
    ensures Invoked(b, cbId, exitOnTrue, args)
      == (called + (if Selected(b[i].id, cbId) then [b[i].id] else [])) + Invoked(b[next..], cbId, exitOnTrue, args)
    ensures Outcome(b, cbId, exitOnTrue, args) == Outcome(b[next..], cbId, exitOnTrue, args)
  {
    var s := b[i..];
    assert s[0] == b[i] && s[1..] == b[next..];
    var sel := if Selected(b[i].id, cbId) then [b[i].id] else [];
    SkipInvoked(s, b[next..], sel, called, cbId, exitOnTrue, args);
    SkipOutcome(s, b[next..], cbId, exitOnTrue, args);
  }

  /** Invoked over a suffix whose head is not a hit: the head's selection, then the rest. */
  lemma SkipInvoked(s: seq<Entry>, t: seq<Entry>, sel: seq<CallbackId>, called: seq<CallbackId>,
                    cbId: Option<int>, exitOnTrue: bool, args: seq<Value>)
    requires s != [] && t == s[1..] && !(exitOnTrue && Hits(s[0], cbId, args))
    requires sel == if Selected(s[0].id, cbId) then [s[0].id] else []
    ensures called + Invoked(s, cbId, exitOnTrue, args) == (called + sel) + Invoked(t, cbId, exitOnTrue, args)
  {
    var rest := Invoked(t, cbId, exitOnTrue, args);
    assert Invoked(s, cbId, exitOnTrue, args) == sel + rest;
    assert called + (sel + rest) == (called + sel) + rest;
  }

  /** Outcome over a suffix whose head is not a hit is the outcome of the rest. */
  lemma SkipOutcome(s: seq<Entry>, t: seq<Entry>, cbId: Option<int>, exitOnTrue: bool, args: seq<Value>)
    requires s != [] && t == s[1..] && !(exitOnTrue && Hits(s[0], cbId, args))
    ensures Outcome(s, cbId, exitOnTrue, args) == Outcome(t, cbId, exitOnTrue, args)
  {
  }

  /** Appending an entry whose identifier is above all others keeps a bucket a dict. */
  lemma FreshKeyed(b: seq<Entry>, id: CallbackId, cb: Handler)
    requires Keyed(b) && forall i :: 0 <= i < |b| ==> b[i].id < id
    ensures Keyed(b + [Entry(id, cb)])
  {
    var ids := IdsOf(b + [Entry(id, cb)]);
    forall i, j | 0 <= i < j < |ids| ensures ids[i] != ids[j] {
      if j == |b| {
        assert ids[i] == b[i].id;
      } else {
        assert ids[i] == IdsOf(b)[i] && ids[j] == IdsOf(b)[j];
      }
    }
  }

  /**
   * `pop(cb_id)` on a dict that holds cb_id: exactly that entry is removed,
   * the others keep their order.
   */
  lemma {:induction false} WithoutRemovesOne(b: seq<Entry>, cbId: int)
    requires Keyed(b) && cbId in IdsOf(b)
    ensures IndexOf(b, cbId).Some?
    ensures Without(b, cbId) == Delete(b, IndexOf(b, cbId).value)
    ensures |Without(b, cbId)| == |b| - 1
  {
    var k := IndexOf(b, cbId).value;
    if k == 0 {
      assert b[0].id == cbId;
      WithoutAbsent(b[1..], cbId);
      assert Delete(b, 0) == b[1..];
    } else {
      var t := b[1..];
      assert IdsOf(b) == [b[0].id] + IdsOf(t);
      KeyedTail(b);
      assert cbId in IdsOf(t);
      WithoutRemovesOne(t, cbId);
      var j := k - 1;
      assert IndexOf(t, cbId).value == j;
      DeleteBehindHead(b, t, k, j);
    }
  }

  /** The tail of a dict is a dict. */
  lemma KeyedTail(b: seq<Entry>)
    requires Keyed(b) && b != []
    ensures Keyed(b[1..])
  {
    var t := b[1..];
    forall i, j | 0 <= i < j < |t| ensures IdsOf(t)[i] != IdsOf(t)[j] {
      assert IdsOf(b)[i + 1] == t[i].id && IdsOf(b)[j + 1] == t[j].id;
    }
  }

  /** Deleting behind the head of a list is deleting in its tail. */
  lemma DeleteBehindHead(b: seq<Entry>, t: seq<Entry>, k: nat, j: nat)
    requires b != [] && t == b[1..] && 0 < k < |b| && j == k - 1
    ensures Delete(b, k) == [b[0]] + Delete(t, j)
  {
    var l, r := Delete(b, k), [b[0]] + Delete(t, j);
    assert |l| == |r|;
    forall m | 0 <= m < |l| ensures l[m] == r[m] {
      if m > 0 {
        assert r[m] == Delete(t, j)[m - 1];
      }
    }
  }

  /** Removing an identifier that is not there changes nothing. */
  lemma {:induction false} WithoutAbsent(b: seq<Entry>, cbId: int)
    requires Keyed(b) && forall i :: 0 <= i < |b| ==> b[i].id != cbId
    ensures Without(b, cbId) == b
  {
    if b != [] {
      var t := b[1..];
      KeyedTail(b);
      WithoutAbsent(t, cbId);
    }
  }

  /** After `pop`, the bucket is still a dict and the identifier is gone from it. */
  lemma WithoutKeyed(b: seq<Entry>, cbId: int)
    requires Keyed(b) && cbId in IdsOf(b)
    ensures Keyed(Without(b, cbId)) && cbId !in IdsOf(Without(b, cbId))
  {
    WithoutRemovesOne(b, cbId);
    var k := IndexOf(b, cbId).value;
    var r := Without(b, cbId);
    assert IdsOf(r) == Delete(IdsOf(b), k);
    DeleteDistinct(IdsOf(b), k);
    forall i | 0 <= i < |r| ensures r[i].id != cbId {
      if i < k {
        assert r[i] == b[i];
      } else {
        assert r[i] == b[i + 1];
        assert IdsOf(b)[k] != IdsOf(b)[i + 1];
      }
    }
  }

  /**
   * `call` returns the identifier of the first entry, in insertion order,
   * that is selected and answers truthily, or None when there is none.
   */
  lemma {:induction false} FirstHitIsFirst(b: seq<Entry>, cbId: Option<int>, args: seq<Value>)
    ensures FirstHit(b, cbId, args).None? <==> forall i :: 0 <= i < |b| ==> !Hits(b[i], cbId, args)
    ensures FirstHit(b, cbId, args).Some? ==>
      exists k :: (0 <= k < |b| && b[k].id == FirstHit(b, cbId, args).value && Hits(b[k], cbId, args)
        && forall j :: 0 <= j < k ==> !Hits(b[j], cbId, args))
  {
    if b != [] && !Hits(b[0], cbId, args) {
      var t := b[1..];
      FirstHitIsFirst(t, cbId, args);
      if FirstHit(t, cbId, args).Some? {
        var k :| 0 <= k < |t| && t[k].id == FirstHit(t, cbId, args).value && Hits(t[k], cbId, args)
          && forall j :: 0 <= j < k ==> !Hits(t[j], cbId, args);
        var m := k + 1;
        assert b[m] == t[k];
        forall j | 0 <= j < m ensures !Hits(b[j], cbId, args) {
          if j > 0 {
            assert b[j] == t[j - 1];
          }
        }
      } else {
        forall i | 0 <= i < |b| ensures !Hits(b[i], cbId, args) {
          if i > 0 {
            assert b[i] == t[i - 1];
          }
        }
      }
    }
  }

  /** Without `exit_on_true`, `call` invokes every selected callback, in insertion order, and returns None. */
  lemma {:induction false} CallsAllSelected(b: seq<Entry>, cbId: Option<int>, args: seq<Value>)
    ensures Invoked(b, cbId, false, args) == SelectedIds(b, cbId)
    ensures Outcome(b, cbId, false, args) == None
  {
    if b != [] {
      CallsAllSelected(b[1..], cbId, args);
    }
  }

  /**
   * With `exit_on_true`, the invocations are the selected callbacks up to
   * the first truthy one, which is the last one invoked.
   */
  lemma {:induction false} StopsAtFirstHit(b: seq<Entry>, cbId: Option<int>, args: seq<Value>)
    ensures FirstHit(b, cbId, args).Some? ==>
      |Invoked(b, cbId, true, args)| > 0 && Invoked(b, cbId, true, args)[|Invoked(b, cbId, true, args)| - 1] == FirstHit(b, cbId, args).value
    ensures FirstHit(b, cbId, args).None? ==> Invoked(b, cbId, true, args) == SelectedIds(b, cbId)
  {
    if b != [] && !Hits(b[0], cbId, args) {
      StopsAtFirstHit(b[1..], cbId, args);
    }
  }

  /** With a (truthy) identifier, a dict's `call` selects at most one callback: the one stored under it. */
  lemma {:induction false} AtMostOneSelected(b: seq<Entry>, key: int)
    requires Keyed(b) && key != 0
    ensures |SelectedIds(b, Some(key))| <= 1
    ensures forall x :: x in SelectedIds(b, Some(key)) ==> x == key && key in IdsOf(b)
  {
    if b != [] {
      var t := b[1..];
      assert IdsOf(b) == [b[0].id] + IdsOf(t);
      KeyedTail(b);
      AtMostOneSelected(t, key);
      if b[0].id == key {
        forall i | 0 <= i < |t| ensures t[i].id != key {
          assert IdsOf(b)[0] != IdsOf(b)[i + 1];
        }
        NoneSelected(t, key);
      }
    }
  }

  /**
   * `call` invokes selected callbacks only, in insertion order: what it
   * invokes is a prefix of what it selects.
   */
  lemma {:induction false} InvokedPrefix(b: seq<Entry>, cbId: Option<int>, exitOnTrue: bool, args: seq<Value>)
    ensures Invoked(b, cbId, exitOnTrue, args) <= SelectedIds(b, cbId)
  {
    if b != [] {
      var t := b[1..];
      InvokedPrefix(t, cbId, exitOnTrue, args);
      var head := if Selected(b[0].id, cbId) then [b[0].id] else [];
      var rest := if exitOnTrue && Hits(b[0], cbId, args) then [] else Invoked(t, cbId, exitOnTrue, args);
      assert rest <= SelectedIds(t, cbId);
      PrefixBehind(head, rest, SelectedIds(t, cbId));
    }
  }

  /** A common head keeps a prefix a prefix. */
  lemma PrefixBehind(h: seq<CallbackId>, x: seq<CallbackId>, y: seq<CallbackId>)
    requires x <= y
    ensures h + x <= h + y
  {
    assert (h + y)[..|h + x|] == h + x;
  }

  /**
   * With a (truthy) identifier, a dict's `call` invokes at most one
   * callback, the one stored under it, whether or not `exit_on_true` is set.
   */
  lemma AtMostOneInvoked(b: seq<Entry>, key: int, exitOnTrue: bool, args: seq<Value>)
    requires Keyed(b) && key != 0
    ensures |Invoked(b, Some(key), exitOnTrue, args)| <= 1
    ensures forall x :: x in Invoked(b, Some(key), exitOnTrue, args) ==> x == key && key in IdsOf(b)
  {
    InvokedPrefix(b, Some(key), exitOnTrue, args);
    AtMostOneSelected(b, key);
    var inv, sel := Invoked(b, Some(key), exitOnTrue, args), SelectedIds(b, Some(key));
    forall x | x in inv ensures x in sel {
      var i :| 0 <= i < |inv| && inv[i] == x;
      assert sel[i] == x;
    }
  }

  /** An identifier that no entry of the bucket holds selects nothing. */
  lemma {:induction false} NoneSelected(b: seq<Entry>, key: int)
    requires key != 0 && forall i :: 0 <= i < |b| ==> b[i].id != key
    ensures SelectedIds(b, Some(key)) == []
  {
    if b != [] {
      NoneSelected(b[1..], key);
    }
  }
}
