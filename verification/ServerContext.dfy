/** `dsh_tls_server_ctx` with `load_chain`, `leaf_has_san`, `open_store`, `chain_validates` and
    `base_ctx` (Ffi/tls_shim.c): every OpenSSL call answers from a script, and every object that is
    created is accounted for. */
module ServerContext {
  import opened Bytes
  import opened Ledgers

  datatype CertRead = CertRead(pushOk: bool)

  /** What the OpenSSL calls of one run answer, in the order of the code. `sans` is absent when the
      leaf has no such extension, else says of each name whether it is a DNS or IP entry. */
  datatype Answers = Answers(
    keyOk: bool,
    bioOk: bool, stackOk: bool, certs: seq<CertRead>, malformed: bool,
    sans: Option<seq<bool>>,
    storeOk: bool, loadOk: bool,
    storeCtxOk: bool, untrustedOk: bool, initOk: bool, verifyOk: bool,
    ctxOk: bool, minOk: bool, maxOk: bool,
    chainFileOk: bool, keyFileOk: bool, checkOk: bool, locationsOk: bool)

  /** The stack takes a certificate only if there is a stack and the push succeeded. */
  predicate Pushes(a: Answers, c: CertRead) {
    a.stackOk && c.pushOk
  }

  function Pushed(a: Answers, certs: seq<CertRead>): nat {
    if certs == [] then 0 else Pushed(a, certs[..|certs| - 1]) + (if Pushes(a, certs[|certs| - 1]) then 1 else 0)
  }

  predicate ChainLoads(a: Answers) {
    a.bioOk && !a.malformed && a.stackOk && Pushed(a, a.certs) > 0
  }

  predicate HasSan(a: Answers) {
    a.sans.Some? && true in a.sans.value
  }

  /** The server policy: a context is created exactly when every check of it passes. */
  predicate Accepts(a: Answers) {
    && a.keyOk && ChainLoads(a) && HasSan(a)
    && a.storeOk && a.loadOk
    && a.storeCtxOk && a.initOk && a.verifyOk
    && Loads(a)
  }

  /** The context itself: made, and given its chain, key and trust file. */
  predicate Loads(a: Answers) {
    a.ctxOk && a.minOk && a.maxOk && a.chainFileOk && a.keyFileOk && a.checkOk && a.locationsOk
  }

  /** Every certificate that was read got onto the stack. */
  predicate AllPushed(a: Answers) {
    a.bioOk ==> forall i | 0 <= i < |a.certs| :: Pushes(a, a.certs[i])
  }

  class OpenSsl {
    const a: Answers
    const objects: Ledger
    /** Live objects that no variable of the code refers to any more. */
    var lost: set<Object>

    constructor (answers: Answers)
      ensures a == answers && fresh(objects) && objects.made == 0 && objects.live == {} && lost == {}
      ensures objects.Balanced()
    {
      a := answers;
      objects := new Ledger();
      lost := {};
    }

    /** `sk_X509_pop_free`: the certificates on the stack, then the stack; nothing for no stack. */
    method PopFree(stack: Option<Object>, certs: seq<Object>)
      requires objects.Balanced() && Holds(objects.live, stack, certs)
      modifies objects
      ensures objects.made == old(objects.made)
      ensures objects.Balanced() && objects.live == old(objects.live) - Owned(stack, certs)
    {
      if stack.None? {
        return;
      }
      for i := 0 to |certs|
        invariant objects.Balanced() && objects.live == old(objects.live) - Elements(certs[..i])
        invariant objects.made == old(objects.made)
      {
        NotBefore(certs, i);
        objects.Free(certs[i]);
      }
      assert certs[..|certs|] == certs;
      objects.Free(stack.value);
    }

    /** The reading loop of `load_chain`. A certificate that was read and could not be pushed is held
        by nobody. */
    method ReadCerts(sk: Option<Object>) returns (certs: seq<Object>)
      requires objects.Balanced() && lost == {} && Holds(objects.live, sk, []) && sk.Some? == a.stackOk
      modifies objects, this`lost
      ensures objects.made >= old(objects.made)
      ensures objects.Balanced() && Holds(objects.live, sk, certs)
      ensures |certs| == Pushed(a, a.certs) && |lost| == |a.certs| - |certs|
      ensures Parted(objects.live, old(objects.live), lost, Elements(certs))
    {
      hide Ledger.Balanced, Elements, Parted, Holds, Pushed;
      certs := [];
      NothingYet(objects.live);
      PushedNone(a);
      for i := 0 to |a.certs|
        invariant objects.Balanced() && objects.made >= old(objects.made) && Holds(objects.live, sk, certs)
        invariant Parted(objects.live, old(objects.live), lost, Elements(certs))
        invariant |certs| == Pushed(a, a.certs[..i]) && |lost| == i - |certs|
      {
        PushedNext(a, i);
        certs := ReadCert(sk, i, certs, old(objects.live));
      }
      assert a.certs[..|a.certs|] == a.certs;
    }

    /** One certificate: read, and pushed onto the stack if there is one and it takes it. */
    method ReadCert(sk: Option<Object>, i: nat, certs: seq<Object>, ghost before: set<Object>) returns (more: seq<Object>)
      requires i < |a.certs| && sk.Some? == a.stackOk
      requires objects.Balanced() && Holds(objects.live, sk, certs) && Parted(objects.live, before, lost, Elements(certs))
      modifies objects, this`lost
      ensures objects.made >= old(objects.made)
      ensures objects.Balanced() && Holds(objects.live, sk, more) && Parted(objects.live, before, lost, Elements(more))
      ensures if Pushes(a, a.certs[i]) then |more| == |certs| + 1 && lost == old(lost)
              else more == certs && |lost| == |old(lost)| + 1
    {
      hide Ledger.Balanced, Elements, Parted, Holds;
      more := certs;
      var x := objects.New(true);
      HoldsMore(old(objects.live), sk, certs, x.value);
      if sk.Some? && a.certs[i].pushOk {
        PartedHeld(old(objects.live), before, lost, certs, x.value);
        more := certs + [x.value];
      } else {
        PartedLost(old(objects.live), before, lost, Elements(certs), x.value);
        lost := lost + {x.value};
      }
    }

    /** The stack and what is read onto it. */
    method ReadStack() returns (sk: Option<Object>, certs: seq<Object>)
      requires objects.Balanced() && lost == {}
      modifies objects, this`lost
      ensures objects.made >= old(objects.made)
      ensures objects.Balanced() && Holds(objects.live, sk, certs) && sk.Some? == a.stackOk && (sk.None? ==> certs == [])
      ensures |certs| == Pushed(a, a.certs) && |lost| == |a.certs| - |certs|
      ensures Parted(objects.live, old(objects.live), lost, Owned(sk, certs))
    {
      hide Ledger.Balanced, Elements, Parted, Pushed, Holds, Owned;
      ghost var before := objects.live;
      sk := objects.New(a.stackOk);
      StackAlone(before, sk);
      ghost var base := objects.live;
      certs := ReadCerts(sk);
      NoStackNothingPushed(a, a.certs);
      PartedStack(objects.live, base, before, sk, lost, certs);
    }

    /** `load_chain`. */
    method LoadChain() returns (stack: Option<Object>, certs: seq<Object>)
      requires objects.Balanced() && lost == {}
      modifies objects, this`lost
      ensures objects.made >= old(objects.made)
      ensures objects.Balanced() && stack.Some? == ChainLoads(a)
      ensures stack.Some? ==> |certs| == Pushed(a, a.certs) && Holds(objects.live, stack, certs)
      ensures Parted(objects.live, old(objects.live), lost, Owned(stack, certs))
      ensures |lost| == if a.bioOk then |a.certs| - Pushed(a, a.certs) else 0
    {
      hide Ledger.Balanced, Elements, Parted, Pushed, Holds, Owned;
      ghost var before := objects.live;
      NothingYet(before);
      NothingOwned([]);
      var b := objects.New(a.bioOk);
      if b.None? {
        return None, [];
      }
      var sk, read := ReadStack();
      PartedBio(objects.live, before, b.value, sk, lost, read);
      objects.Free(b.value);
      PartedDrop(objects.live, before, lost, Owned(sk, read));
      stack := KeepChain(sk, read);
      certs := if stack.None? then [] else read;
    }

    /** The end of `load_chain`: a malformed file or an empty stack is freed and refused. */
    method KeepChain(sk: Option<Object>, certs: seq<Object>) returns (stack: Option<Object>)
      requires objects.Balanced() && Holds(objects.live, sk, certs)
      modifies objects
      ensures objects.made == old(objects.made)
      ensures objects.Balanced() && stack == if a.malformed || |certs| == 0 then None else sk
      ensures objects.live == if stack.Some? then old(objects.live) else old(objects.live) - Owned(sk, certs)
    {
      hide Ledger.Balanced;
      if a.malformed {
        PopFree(sk, certs);
        return None;
      }
      if sk.None? {
        return None;
      }
      if |certs| == 0 {
        objects.Free(sk.value);
        return None;
      }
      return sk;
    }

    /** `leaf_has_san`: the first DNS or IP entry decides. */
    method LeafHasSan() returns (found: bool)
      requires objects.Balanced()
      modifies objects
      ensures objects.made >= old(objects.made)
      ensures objects.Balanced() && objects.live == old(objects.live) && found == HasSan(a)
    {
      var sans := objects.New(a.sans.Some?);
      found := false;
      if sans.Some? {
        for i := 0 to |a.sans.value|
          invariant !found && true !in a.sans.value[..i]
        {
          if a.sans.value[i] {
            found := true;
            break;
          }
        }
        objects.Free(sans.value);
      }
    }

    method OpenStore() returns (store: Option<Object>)
      requires objects.Balanced()
      modifies objects
      ensures objects.made >= old(objects.made)
      ensures objects.Balanced() && store.Some? == (a.storeOk && a.loadOk)
      ensures store.Some? ==> store.value !in old(objects.live) && objects.live == old(objects.live) + {store.value}
      ensures store.None? ==> objects.live == old(objects.live)
    {
      store := objects.New(a.storeOk);
      if store.None? {
        return None;
      }
      if !a.loadOk {
        objects.Free(store.value);
        return None;
      }
    }

    /** `chain_validates`: the untrusted stack borrows its certificates, so only the stack is freed. */
    method ChainValidates() returns (ok: bool)
      requires objects.Balanced()
      modifies objects
      ensures objects.made >= old(objects.made)
      ensures objects.Balanced() && objects.live == old(objects.live) && ok == (a.storeCtxOk && a.initOk && a.verifyOk)
    {
      var c := objects.New(a.storeCtxOk);
      if c.None? {
        return false;
      }
      var untrusted := objects.New(a.untrustedOk);
      ok := a.initOk && a.verifyOk;
      objects.Free(c.value);
      if untrusted.Some? {
        objects.Free(untrusted.value);
      }
    }

    method BaseCtx() returns (c: Option<Object>)
      requires objects.Balanced()
      modifies objects
      ensures objects.made >= old(objects.made)
      ensures objects.Balanced() && c.Some? == (a.ctxOk && a.minOk && a.maxOk)
      ensures c.Some? ==> c.value !in old(objects.live) && objects.live == old(objects.live) + {c.value}
      ensures c.None? ==> objects.live == old(objects.live)
    {
      c := objects.New(a.ctxOk);
      if c.None? {
        return None;
      }
      if !a.minOk || !a.maxOk {
        objects.Free(c.value);
        return None;
      }
    }

    /** MAIN RESULT. For every answer of every call and any number of certificates: the context comes
        back exactly when all checks pass; every object that was created has been freed exactly once
        (`Balanced`), except the returned context and the certificates that could not be pushed; and
        of these there is none exactly when every push succeeded. */
    method ServerCtx() returns (r: Option<Object>)
      requires objects.Balanced() && lost == {}
      modifies objects, this`lost
      ensures objects.made >= old(objects.made)
      ensures objects.Balanced() && r.Some? == Accepts(a)
      ensures lost !! old(objects.live) && (r.Some? ==> r.value !in old(objects.live) + lost)
      ensures objects.live == old(objects.live) + lost + (if r.Some? then {r.value} else {})
      ensures |lost| == if a.keyOk && a.bioOk then |a.certs| - Pushed(a, a.certs) else 0
    {
      hide Ledger.Balanced, Elements, Parted, Pushed, Holds, Owned;
      if !a.keyOk {
        return None;
      }
      var chain, certs := LoadChain();
      PartedDrop(objects.live, old(objects.live), lost, Owned(chain, certs));
      PartedParts(objects.live, old(objects.live), lost, Owned(chain, certs));
      NothingOwned(certs);
      if chain.None? {
        return None;
      }
      r := CheckChain(chain, certs);
    }

    /** The checks on a loaded chain, which is freed on every path. */
    method CheckChain(chain: Option<Object>, certs: seq<Object>) returns (r: Option<Object>)
      requires objects.Balanced() && Holds(objects.live, chain, certs)
      modifies objects
      ensures objects.made >= old(objects.made)
      ensures objects.Balanced()
      ensures r.Some? == (HasSan(a) && a.storeOk && a.loadOk && a.storeCtxOk && a.initOk && a.verifyOk && Loads(a))
      ensures r.Some? ==> r.value !in old(objects.live) - Owned(chain, certs)
      ensures objects.live == old(objects.live) - Owned(chain, certs) + (if r.Some? then {r.value} else {})
    {
      hide Ledger.Balanced, Elements, Parted, Pushed, Holds, Owned;
      ghost var all := objects.live;
      var san := LeafHasSan();
      if !san {
        PopFree(chain, certs);
        return None;
      }
      var store := OpenStore();
      if store.None? {
        PopFree(chain, certs);
        return None;
      }
      var chainOk := ChainValidates();
      HoldsMore(all, chain, certs, store.value);
      PopFree(chain, certs);
      OwnedIsLive(all, chain, certs);
      assert objects.live == all - Owned(chain, certs) + {store.value};
      if !chainOk {
        objects.Free(store.value);
        return None;
      }
      r := LoadCredentials(store.value);
    }

    /** The end of `dsh_tls_server_ctx`: the context and what it loads; the store goes on every path. */
    method LoadCredentials(store: Object) returns (r: Option<Object>)
      requires objects.Balanced() && store in objects.live
      modifies objects
      ensures objects.made >= old(objects.made)
      ensures objects.Balanced() && (r.Some? ==> r.value !in old(objects.live))
      ensures r.Some? == Loads(a)
      ensures objects.live == old(objects.live) - {store} + (if r.Some? then {r.value} else {})
    {
      hide Ledger.Balanced;
      var c := BaseCtx();
      if c.None? {
        objects.Free(store);
        return None;
      }
      if !a.chainFileOk || !a.keyFileOk || !a.checkOk {
        objects.Free(c.value);
        objects.Free(store);
        return None;
      }
      if !a.locationsOk {
        objects.Free(c.value);
        objects.Free(store);
        return None;
      }
      objects.Free(store);
      return c;
    }
  }

  // ---------------------------------------------------------------- stacks

  function Elements(certs: seq<Object>): set<Object> {
    set i | 0 <= i < |certs| :: certs[i]
  }

  function Owned(stack: Option<Object>, certs: seq<Object>): set<Object> {
    if stack.None? then {} else {stack.value} + Elements(certs)
  }

  /** A stack and the certificates on it are live and all different. */
  predicate Holds(live: set<Object>, stack: Option<Object>, certs: seq<Object>) {
    stack.Some? ==>
      && stack.value in live
      && (forall i | 0 <= i < |certs| :: certs[i] in live && certs[i] != stack.value)
      && (forall i, j | 0 <= i < j < |certs| :: certs[i] != certs[j])
  }

  lemma {:induction false} NotBefore(certs: seq<Object>, i: nat)
    requires i < |certs| && forall j, k | 0 <= j < k < |certs| :: certs[j] != certs[k]
    ensures certs[i] !in Elements(certs[..i])
    ensures Elements(certs[..i + 1]) == Elements(certs[..i]) + {certs[i]}
  {
    assert certs[..i + 1] == certs[..i] + [certs[i]];
    ElementsGrow(certs[..i], certs[i]);
  }

  lemma {:induction false} ElementsGrow(certs: seq<Object>, x: Object)
    ensures Elements(certs + [x]) == Elements(certs) + {x}
  {
    var all := certs + [x];
    assert all[|certs|] == x;
    assert forall i | 0 <= i < |certs| :: all[i] == certs[i];
  }

  lemma {:induction false} HoldsMore(live: set<Object>, stack: Option<Object>, certs: seq<Object>, x: Object)
    requires Holds(live, stack, certs) && x !in live
    ensures Holds(live + {x}, stack, certs) && Holds(live + {x}, stack, certs + [x])
  {
  }

  /** The live objects are those of before, the lost ones and the held ones, all different. */
  predicate Parted(live: set<Object>, before: set<Object>, lost: set<Object>, held: set<Object>) {
    live == before + lost + held && lost !! before && held !! before && held !! lost
  }

  lemma {:induction false} PartedLost(live: set<Object>, before: set<Object>, lost: set<Object>, held: set<Object>, x: Object)
    requires Parted(live, before, lost, held) && x !in live
    ensures Parted(live + {x}, before, lost + {x}, held)
    ensures |lost + {x}| == |lost| + 1
  {
  }

  lemma {:induction false} PartedHeld(live: set<Object>, before: set<Object>, lost: set<Object>, certs: seq<Object>, x: Object)
    requires Parted(live, before, lost, Elements(certs)) && x !in live
    ensures Parted(live + {x}, before, lost, Elements(certs + [x]))
  {
    ElementsGrow(certs, x);
  }

  lemma {:induction false} NothingYet(live: set<Object>)
    ensures Parted(live, live, {}, {}) && Elements([]) == {}
  {
  }

  lemma {:induction false} StackAlone(live: set<Object>, sk: Option<Object>)
    ensures var base := if sk.Some? then live + {sk.value} else live;
            Holds(base, sk, []) && base == live + Owned(sk, [])
  {
    assert Elements([]) == {};
  }

  lemma {:induction false} PartedStack(
    live: set<Object>, base: set<Object>, before: set<Object>, sk: Option<Object>, lost: set<Object>, certs: seq<Object>)
    requires base == before + Owned(sk, []) && (sk.Some? ==> sk.value !in before) && (sk.None? ==> certs == [])
    requires Parted(live, base, lost, Elements(certs)) && Holds(live, sk, certs)
    ensures Parted(live, before, lost, Owned(sk, certs))
  {
    assert Elements([]) == {};
  }

  /** Without the BIO, what is live after the reading loop is what was before it, what was lost, and
      the stack with its certificates. */
  lemma {:induction false} PartedBio(
    live: set<Object>, before: set<Object>, b: Object, sk: Option<Object>, lost: set<Object>, certs: seq<Object>)
    requires b !in before
    requires Parted(live, before + {b}, lost, Owned(sk, certs)) && Holds(live, sk, certs)
    ensures b in live
    ensures Parted(live - {b}, before, lost, Owned(sk, certs)) && Holds(live - {b}, sk, certs)
  {
    assert b !in Owned(sk, certs);
    if sk.Some? {
      forall i | 0 <= i < |certs| ensures certs[i] != b {
        assert certs[i] in Elements(certs);
      }
    }
  }

  lemma {:induction false} OwnedIsLive(live: set<Object>, stack: Option<Object>, certs: seq<Object>)
    requires Holds(live, stack, certs)
    ensures Owned(stack, certs) <= live
  {
  }

  lemma {:induction false} NothingOwned(certs: seq<Object>)
    ensures Owned(None, certs) == {}
  {
  }

  lemma {:induction false} PartedParts(live: set<Object>, before: set<Object>, lost: set<Object>, held: set<Object>)
    requires Parted(live, before, lost, held)
    ensures lost !! before && live == before + lost + held
  {
  }

  lemma {:induction false} PartedDrop(live: set<Object>, before: set<Object>, lost: set<Object>, held: set<Object>)
    requires Parted(live, before, lost, held)
    ensures live - held == before + lost && Parted(before + lost, before, lost, {})
  {
  }

  lemma {:induction false} PushedNone(a: Answers)
    ensures Pushed(a, a.certs[..0]) == 0
  {
  }

  lemma {:induction false} PushedNext(a: Answers, i: nat)
    requires i < |a.certs|
    ensures Pushed(a, a.certs[..i + 1]) == Pushed(a, a.certs[..i]) + (if Pushes(a, a.certs[i]) then 1 else 0)
  {
    assert a.certs[..i + 1][..i] == a.certs[..i];
  }

  lemma {:induction false} NoStackNothingPushed(a: Answers, certs: seq<CertRead>)
    ensures !a.stackOk ==> Pushed(a, certs) == 0
  {
    if certs != [] {
      NoStackNothingPushed(a, certs[..|certs| - 1]);
    }
  }

  // ---------------------------------------------------------------- when a certificate is lost

  lemma {:induction false} PushedBound(a: Answers, certs: seq<CertRead>)
    ensures Pushed(a, certs) <= |certs|
    ensures Pushed(a, certs) == |certs| <==> forall i | 0 <= i < |certs| :: Pushes(a, certs[i])
  {
    if certs != [] {
      var n := |certs| - 1;
      PushedBound(a, certs[..n]);
      assert forall i | 0 <= i < n :: certs[..n][i] == certs[i];
      assert Pushed(a, certs) == |certs| ==> Pushed(a, certs[..n]) == n && Pushes(a, certs[n]);
    }
  }

  /** How many certificates get onto the stack. */
  lemma {:induction false} PushedCounts(a: Answers, certs: seq<CertRead>)
    ensures Pushed(a, certs) == if a.stackOk then multiset(certs)[CertRead(true)] else 0
  {
    if certs != [] {
      var n := |certs| - 1;
      PushedCounts(a, certs[..n]);
      assert certs == certs[..n] + [certs[n]];
    }
  }

  /** MAIN RESULT, policy. In the single answers: a server context is created exactly when the key file
      is acceptable, the chain file opens, is well formed and has a certificate that gets onto the
      stack, the leaf has a DNS or IP name, the chain verifies against the trust file, and the context
      takes protocol bounds, chain, key and trust file. */
  lemma {:induction false} AcceptsExactly(a: Answers)
    ensures Accepts(a)
       <==> && a.keyOk
            && a.bioOk && a.stackOk && !a.malformed && (exists i :: 0 <= i < |a.certs| && a.certs[i].pushOk)
            && a.sans.Some? && (exists i :: 0 <= i < |a.sans.value| && a.sans.value[i])
            && a.storeOk && a.loadOk && a.storeCtxOk && a.initOk && a.verifyOk
            && a.ctxOk && a.minOk && a.maxOk
            && a.chainFileOk && a.keyFileOk && a.checkOk && a.locationsOk
  {
    PushedCounts(a, a.certs);
    if exists i :: 0 <= i < |a.certs| && a.certs[i].pushOk {
      var i :| 0 <= i < |a.certs| && a.certs[i].pushOk;
      assert a.certs[i] == CertRead(true);
    }
    if multiset(a.certs)[CertRead(true)] > 0 {
      assert CertRead(true) in a.certs;
    }
  }

  /** The exact condition under which nothing is lost: no certificate was read, or every one of them
      got onto the stack. */
  lemma {:induction false} NothingLostExactly(a: Answers)
    ensures (if a.keyOk && a.bioOk then |a.certs| - Pushed(a, a.certs) else 0) == 0
       <==> !a.keyOk || !a.bioOk || forall i | 0 <= i < |a.certs| :: a.stackOk && a.certs[i].pushOk
  {
    PushedBound(a, a.certs);
  }

  /** An accepted chain is the whole nonempty file exactly when every certificate that was read was
      pushed; with a failed push, the server accepts a chain that is shorter than its file. */
  lemma {:induction false} AcceptedChainIsWhole(a: Answers)
    requires Accepts(a)
    ensures 0 < Pushed(a, a.certs) <= |a.certs|
    ensures Pushed(a, a.certs) == |a.certs| <==> forall i | 0 <= i < |a.certs| :: a.certs[i].pushOk
  {
    PushedBound(a, a.certs);
  }
}
