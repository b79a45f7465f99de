/** The periodic scan: every tick queries the thumbnails on the page,
    attaches the `contextmenu` listener to those not yet in the weak set
    `ws`, and then adds them to it, so that each thumbnail gets exactly one
    listener however many ticks see it. */
module Scanner {

  /** A DOM element, by identity. */
  type Elem = nat

  /** The scanner's state: the elements in `ws`, and how many `contextmenu`
      listeners the script has attached to each element. */
  datatype ScanState = ScanState(seen: set<Elem>, listeners: map<Elem, nat>)

  /** The listeners attached to `e`; an element never handled has none. */
  function Count(m: map<Elem, nat>, e: Elem): nat {
    if e in m then m[e] else 0
  }

  function Elements(es: seq<Elem>): set<Elem> {
    set e | e in es
  }

  /** `querySelectorAll` returns every element once. */
  predicate Distinct(es: seq<Elem>) {
    forall i, j :: 0 <= i < j < |es| ==> es[i] != es[j]
  }

  /** `elems.filter(el => !ws.has(el))`: the queried elements not seen yet,
      in query order. */
  function Unseen(seen: set<Elem>, elems: seq<Elem>): (r: seq<Elem>)
    ensures |r| <= |elems|
    ensures forall e :: e in r <==> e in elems && e !in seen
  {
    if elems == [] then []
    else
      var init := Unseen(seen, elems[..|elems| - 1]);
      var last := elems[|elems| - 1];
      assert elems == elems[..|elems| - 1] + [last];
      if last in seen then init else init + [last]
  }

  /** One `addEventListener` call per element of `es`, in order. */
  function Attach(m: map<Elem, nat>, es: seq<Elem>): map<Elem, nat> {
    if es == [] then m
    else
      var m' := Attach(m, es[..|es| - 1]);
      var last := es[|es| - 1];
      m'[last := Count(m', last) + 1]
  }

  /** One tick of the interval callback. */
  function Step(s: ScanState, elems: seq<Elem>): ScanState {
    var unseen := Unseen(s.seen, elems);
    ScanState(s.seen + Elements(unseen), Attach(s.listeners, unseen))
  }

  /** The state before the first tick. */
  function Init(): ScanState {
    ScanState({}, map[])
  }

  /** Exactly the elements in `ws` carry a listener, and each carries one. */
  predicate Good(s: ScanState) {
    s.listeners.Keys == s.seen && forall e :: e in s.listeners ==> s.listeners[e] == 1
  }

  /** Filtering keeps the query's elements distinct. */
  lemma {:induction false} UnseenDistinct(seen: set<Elem>, elems: seq<Elem>)
    requires Distinct(elems)
    ensures Distinct(Unseen(seen, elems))
    decreases |elems|
  {
    if elems != [] {
      var init := elems[..|elems| - 1];
      assert Distinct(init);
      UnseenDistinct(seen, init);
      var last := elems[|elems| - 1];
      assert last !in init;
    }
  }

  /** Each call adds one listener to its element: after the calls for a
      list without repeats, an element of the list has one more listener
      than before and any other element as many as before. */
  lemma {:induction false} AttachCount(m: map<Elem, nat>, es: seq<Elem>, e: Elem)
    requires Distinct(es)
    ensures Count(Attach(m, es), e) == Count(m, e) + (if e in es then 1 else 0)
    decreases |es|
  {
    if es != [] {
      var init := es[..|es| - 1];
      var last := es[|es| - 1];
      assert Distinct(init);
      assert e in es <==> e in init || e == last;
      AttachCount(m, init, e);
      AttachCount(m, init, last);
    }
  }

  /** The calls give listeners to exactly the listed elements beyond those
      that had some. */
  lemma {:induction false} AttachKeys(m: map<Elem, nat>, es: seq<Elem>)
    ensures Attach(m, es).Keys == m.Keys + Elements(es)
    decreases |es|
  {
    if es != [] {
      var init := es[..|es| - 1];
      var last := es[|es| - 1];
      AttachKeys(m, init);
      assert es == init + [last];
      assert Elements(es) == Elements(init) + {last};
    }
  }

  /** A tick adds the queried elements to `ws` and nothing else. */
  lemma StepSeen(s: ScanState, elems: seq<Elem>)
    ensures Step(s, elems).seen == s.seen + Elements(elems)
  {
  }

  /** A tick over a query without repeats keeps every seen element at one
      listener and gives each newly seen element exactly one. */
  lemma StepGood(s: ScanState, elems: seq<Elem>)
    requires Good(s) && Distinct(elems)
    ensures Good(Step(s, elems))
  {
    var unseen := Unseen(s.seen, elems);
    UnseenDistinct(s.seen, elems);
    var t := Step(s, elems);
    AttachKeys(s.listeners, unseen);
    forall e | e in t.listeners ensures t.listeners[e] == 1 {
      AttachCount(s.listeners, unseen, e);
    }
  }

  /** When every queried element is already in `ws`, nothing passes the
      filter. */
  lemma {:induction false} UnseenAllSeen(seen: set<Elem>, elems: seq<Elem>)
    requires forall e :: e in elems ==> e in seen
    ensures Unseen(seen, elems) == []
    decreases |elems|
  {
    if elems != [] {
      var init := elems[..|elems| - 1];
      assert forall e :: e in init ==> e in elems;
      UnseenAllSeen(seen, init);
      assert elems[|elems| - 1] in elems;
    }
  }

  /** A second tick over the same elements changes nothing. */
  lemma StepIdempotent(s: ScanState, elems: seq<Elem>)
    ensures Step(Step(s, elems), elems) == Step(s, elems)
  {
    var t := Step(s, elems);
    UnseenAllSeen(t.seen, elems);
    assert Elements([]) == {};
  }

  /** The state after a sequence of ticks. */
  function Run(s: ScanState, ticks: seq<seq<Elem>>): ScanState {
    if ticks == [] then s else Step(Run(s, ticks[..|ticks| - 1]), ticks[|ticks| - 1])
  }

  /** After any number of ticks, `ws` holds exactly the elements some tick
      queried. */
  lemma {:induction false} RunSeen(ticks: seq<seq<Elem>>, e: Elem)
    ensures e in Run(Init(), ticks).seen <==> exists k :: 0 <= k < |ticks| && e in ticks[k]
    decreases |ticks|
  {
    if ticks != [] {
      var init := ticks[..|ticks| - 1];
      var last := ticks[|ticks| - 1];
      RunSeen(init, e);
      StepSeen(Run(Init(), init), last);
      if exists k :: 0 <= k < |init| && e in init[k] {
        var k :| 0 <= k < |init| && e in init[k];
        assert e in ticks[k];
      }
      if exists k :: 0 <= k < |ticks| && e in ticks[k] {
        var k :| 0 <= k < |ticks| && e in ticks[k];
        if k < |init| {
          assert e in init[k];
        }
      }
    }
  }

  /** Ticks whose queries have no repeats keep the scanner good. */
  lemma {:induction false} RunGood(ticks: seq<seq<Elem>>)
    requires forall k :: 0 <= k < |ticks| ==> Distinct(ticks[k])
    ensures Good(Run(Init(), ticks))
    decreases |ticks|
  {
    if ticks != [] {
      var init := ticks[..|ticks| - 1];
      assert forall k :: 0 <= k < |init| ==> init[k] == ticks[k];
      RunGood(init);
      StepGood(Run(Init(), init), ticks[|ticks| - 1]);
    }
  }

  /** Over any number of ticks whose queries have no repeats, every element
      any tick has seen carries exactly one listener, and no other element
      carries one. */
  lemma RunExactlyOnce(ticks: seq<seq<Elem>>, e: Elem)
    requires forall k :: 0 <= k < |ticks| ==> Distinct(ticks[k])
    ensures Good(Run(Init(), ticks))
    ensures Count(Run(Init(), ticks).listeners, e) == if exists k :: 0 <= k < |ticks| && e in ticks[k] then 1 else 0
  {
    RunGood(ticks);
    RunSeen(ticks, e);
  }

  /** The interval callback's state: `ws` and the listeners attached so far. */
  class Scanner {
    var seen: set<Elem>
    var listeners: map<Elem, nat>

    function State(): ScanState
      reads this
    {
      ScanState(seen, listeners)
    }

    constructor()
      ensures State() == Init()
    {
      seen := {};
      listeners := map[];
    }

    /** One tick: returns `elemsFiltered`, attaches one listener to each of
        them, then adds them to `ws`. */
    method Tick(elems: seq<Elem>) returns (filtered: seq<Elem>)
      modifies this
      ensures filtered == Unseen(old(seen), elems)
      ensures State() == Step(old(State()), elems)
      ensures Good(old(State())) && Distinct(elems) ==> Good(State())
    {
      filtered := Filter(elems);
      AttachListeners(filtered);
      MarkSeen(filtered);
      if Good(old(State())) && Distinct(elems) {
        StepGood(old(State()), elems);
      }
    }

    /** `elems.filter(el => !ws.has(el))`. */
    method Filter(elems: seq<Elem>) returns (filtered: seq<Elem>)
      ensures filtered == Unseen(seen, elems)
    {
      filtered := [];
      var i := 0;
      while i < |elems|
        invariant 0 <= i <= |elems|
        invariant filtered == Unseen(seen, elems[..i])
      {
        assert elems[..i + 1][..i] == elems[..i];
        if elems[i] !in seen {
          filtered := filtered + [elems[i]];
        }
        i := i + 1;
      }
      assert elems[..i] == elems;
    }

    /** `elemsFiltered.forEach(el => el.addEventListener("contextmenu", …))`. */
    method AttachListeners(es: seq<Elem>)
      modifies this
      ensures seen == old(seen)
      ensures listeners == Attach(old(listeners), es)
    {
      var j := 0;
      while j < |es|
        invariant 0 <= j <= |es|
        invariant seen == old(seen)
        invariant listeners == Attach(old(listeners), es[..j])
      {
        assert es[..j + 1][..j] == es[..j];
        listeners := listeners[es[j] := Count(listeners, es[j]) + 1];
        j := j + 1;
      }
      assert es[..j] == es;
    }

    /** `elemsFiltered.forEach(el => ws.add(el))`. */
    method MarkSeen(es: seq<Elem>)
      modifies this
      ensures seen == old(seen) + Elements(es)
      ensures listeners == old(listeners)
    {
      var j := 0;
      assert Elements(es[..0]) == {};
      while j < |es|
        invariant 0 <= j <= |es|
        invariant listeners == old(listeners)
        invariant seen == old(seen) + Elements(es[..j])
      {
        assert Elements(es[..j + 1]) == Elements(es[..j]) + {es[j]} by {
          assert es[..j + 1] == es[..j] + [es[j]];
        }
        seen := seen + {es[j]};
        j := j + 1;
      }
      assert es[..j] == es;
    }
  }
}
