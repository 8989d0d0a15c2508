/** When the two ends of a session compute the same stream table.  Each end
    announces its own protocols in order and lays out the shared ones in the
    order the other end announced. */
module Negotiation {
  import opened Basics
  import opened Framing
  import opened FrameRuns
  import opened Multiplex
  import opened EndToEnd

  function CapOf(p: Spec): Cap {
    Cap(p.name, p.version)
  }

  /** The capabilities an end announces, one per protocol, in order. */
  function Caps(backends: seq<Spec>): seq<Cap> {
    seq(|backends|, i requires 0 <= i < |backends| => CapOf(backends[i]))
  }

  /** Same name and version. */
  predicate Same(p: Spec, q: Spec) {
    CapOf(p) == CapOf(q)
  }

  ghost predicate Distinct(backends: seq<Spec>) {
    forall i, j :: 0 <= i < j < |backends| ==> !Same(backends[i], backends[j])
  }

  /** The protocols both ends have are listed in the same order. */
  ghost predicate InSameOrder(a: seq<Spec>, b: seq<Spec>) {
    forall i, j, k, l ::
      0 <= i < j < |a| && 0 <= k < |b| && 0 <= l < |b| && Same(a[i], b[k]) && Same(a[j], b[l]) ==> k < l
  }

  ghost predicate SameLengths(a: seq<Spec>, b: seq<Spec>) {
    forall i, k :: 0 <= i < |a| && 0 <= k < |b| && Same(a[i], b[k]) ==> a[i].length == b[k].length
  }

  ghost predicate Agreeing(a: seq<Spec>, b: seq<Spec>) {
    InSameOrder(a, b) && SameLengths(a, b)
  }

  /** The shared protocols as the end with protocols `mine` sees them. */
  function Negotiated(mine: seq<Spec>, theirs: seq<Spec>): seq<Spec> {
    Shared(mine, Caps(theirs))
  }

  // ----- one protocol more -----

  ghost predicate Matched(p: Spec, backends: seq<Spec>) {
    exists i :: 0 <= i < |backends| && Same(p, backends[i])
  }

  /** What a capability finds among distinct protocols. */
  lemma {:induction false} Found(backends: seq<Spec>, p: Spec, i: nat)
    requires Distinct(backends) && i < |backends| && Same(p, backends[i])
    ensures Protocol(backends, CapOf(p)) == Some(backends[i])
  {
    if i > 0 {
      var rest := backends[1..];
      assert forall j :: 0 <= j < |rest| ==> rest[j] == backends[j + 1];
      assert !Same(backends[0], backends[i]);
      Found(rest, p, i - 1);
    }
  }

  lemma {:induction false} NotFound(backends: seq<Spec>, p: Spec)
    requires !Matched(p, backends)
    ensures Protocol(backends, CapOf(p)) == None
  {
    ProtocolIsFirst(backends, CapOf(p));
    assert forall i :: 0 <= i < |backends| ==> !Same(p, backends[i]);
  }

  /** The last announced capability adds what it finds. */
  lemma LastCap(mine: seq<Spec>, theirs: seq<Spec>)
    requires theirs != []
    ensures var n := |theirs| - 1; var p := Protocol(mine, CapOf(theirs[n]));
      Negotiated(mine, theirs) == Negotiated(mine, theirs[..n]) + if p.Some? then [p.value] else []
  {
    var n := |theirs| - 1;
    assert Caps(theirs)[..n] == Caps(theirs[..n]);
  }

  /** A protocol the other end does not announce makes no difference. */
  lemma {:induction false} DropUnmatched(mine: seq<Spec>, theirs: seq<Spec>)
    requires mine != [] && !Matched(mine[|mine| - 1], theirs)
    ensures Negotiated(mine, theirs) == Negotiated(mine[..|mine| - 1], theirs)
  {
    if theirs != [] {
      var n := |theirs| - 1;
      var x, init := theirs[n], theirs[..n];
      assert forall i :: 0 <= i < n ==> init[i] == theirs[i];
      DropUnmatched(mine, init);
      LastCap(mine, theirs);
      LastCap(mine[..|mine| - 1], theirs);
      assert !Same(mine[|mine| - 1], theirs[n]);
      DropLast(mine, CapOf(x));
    }
  }

  lemma {:induction false} DropLast(backends: seq<Spec>, cap: Cap)
    requires backends != [] && !Offers(backends[|backends| - 1], cap)
    ensures Protocol(backends, cap) == Protocol(backends[..|backends| - 1], cap)
  {
    if |backends| > 1 {
      DropLast(backends[1..], cap);
      assert backends[1..][..|backends| - 2] == backends[..|backends| - 1][1..];
    }
  }

  lemma {:induction false} NothingShared(mine: seq<Spec>, theirs: seq<Spec>)
    requires mine == [] || theirs == []
    ensures Negotiated(mine, theirs) == []
  {
    if theirs != [] {
      NothingShared(mine, theirs[..|theirs| - 1]);
      LastCap(mine, theirs);
    }
  }

  /** An announced capability that matches nothing adds nothing. */
  lemma UnmatchedAddsNothing(mine: seq<Spec>, theirs: seq<Spec>)
    requires theirs != [] && !Matched(theirs[|theirs| - 1], mine)
    ensures Negotiated(mine, theirs) == Negotiated(mine, theirs[..|theirs| - 1])
  {
    LastCap(mine, theirs);
    NotFound(mine, theirs[|theirs| - 1]);
  }

  // ----- the two ends agree -----

  lemma AgreeingWithoutLast(a: seq<Spec>, b: seq<Spec>)
    requires a != [] && !Matched(a[|a| - 1], b)
    ensures Agreeing(a, b) <==> Agreeing(a[..|a| - 1], b)
  {
    var a' := a[..|a| - 1];
    assert forall i :: 0 <= i < |a'| ==> a'[i] == a[i];
    assert forall k :: 0 <= k < |b| ==> !Same(a[|a| - 1], b[k]);
  }

  lemma AgreeingWithoutOther(a: seq<Spec>, b: seq<Spec>)
    requires b != [] && !Matched(b[|b| - 1], a)
    ensures Agreeing(a, b) <==> Agreeing(a, b[..|b| - 1])
  {
    var b' := b[..|b| - 1];
    assert forall k :: 0 <= k < |b'| ==> b'[k] == b[k];
    assert forall i :: 0 <= i < |a| ==> !Same(b[|b| - 1], a[i]);
  }

  /** The last protocols of both ends are the same one. */
  lemma AgreeingWithBoth(a: seq<Spec>, b: seq<Spec>)
    requires a != [] && b != [] && Distinct(a) && Distinct(b) && Same(a[|a| - 1], b[|b| - 1])
    ensures Agreeing(a, b) <==> Agreeing(a[..|a| - 1], b[..|b| - 1]) && a[|a| - 1].length == b[|b| - 1].length
  {
    var a', b' := a[..|a| - 1], b[..|b| - 1];
    assert forall i :: 0 <= i < |a'| ==> a'[i] == a[i] && !Same(a[i], b[|b| - 1]);
    assert forall k :: 0 <= k < |b'| ==> b'[k] == b[k] && !Same(a[|a| - 1], b[k]);
    if Agreeing(a', b') && a[|a| - 1].length == b[|b| - 1].length {
      OrderWithBoth(a, b);
    }
  }

  lemma OrderWithBoth(a: seq<Spec>, b: seq<Spec>)
    requires a != [] && b != [] && InSameOrder(a[..|a| - 1], b[..|b| - 1])
    requires forall i :: 0 <= i < |a| - 1 ==> !Same(a[i], b[|b| - 1])
    requires forall k :: 0 <= k < |b| - 1 ==> !Same(a[|a| - 1], b[k])
    ensures InSameOrder(a, b)
  {
    var a', b' := a[..|a| - 1], b[..|b| - 1];
    forall i, j, k, l | 0 <= i < j < |a| && 0 <= k < |b| && 0 <= l < |b| && Same(a[i], b[k]) && Same(a[j], b[l])
      ensures k < l
    {
      if l < |b| - 1 && j < |a| - 1 {
        assert Same(a'[i], b'[k]) && Same(a'[j], b'[l]);
      }
    }
  }

  lemma {:induction false} WithBothLast(a: seq<Spec>, b: seq<Spec>)
    requires a != [] && b != [] && Distinct(a) && Distinct(b) && Same(a[|a| - 1], b[|b| - 1])
    ensures Negotiated(a, b) == Negotiated(a[..|a| - 1], b[..|b| - 1]) + [a[|a| - 1]]
  {
    var a', b', x := a[..|a| - 1], b[..|b| - 1], a[|a| - 1];
    LastCap(a, b);
    Found(a, b[|b| - 1], |a| - 1);
    assert forall k :: 0 <= k < |b'| ==> b'[k] == b[k] && !Same(b[k], b[|b| - 1]);
    DropUnmatched(a, b');
  }

  /** The last protocols of both ends are shared but different: the ends disagree in order and in result. */
  lemma {:induction false} CrossedLast(a: seq<Spec>, b: seq<Spec>, i: nat, k: nat)
    requires Distinct(a) && Distinct(b) && i < |a| && k < |b|
    requires Same(b[|b| - 1], a[i]) && Same(a[|a| - 1], b[k]) && !Same(a[|a| - 1], b[|b| - 1])
    ensures Negotiated(a, b) != Negotiated(b, a) && !InSameOrder(a, b)
  {
    LastCap(a, b);
    LastCap(b, a);
    Found(a, b[|b| - 1], i);
    Found(b, a[|a| - 1], k);
    var s, t := Negotiated(a, b), Negotiated(b, a);
    assert s[|s| - 1] == a[i] && t[|t| - 1] == b[k];
    assert i < |a| - 1 && Same(a[i], b[|b| - 1]) && Same(a[|a| - 1], b[k]);
  }

  /** Both ends see the same shared protocols exactly if they list them in the same order with the same lengths. */
  lemma {:induction false} SameViewIff(a: seq<Spec>, b: seq<Spec>)
    requires Distinct(a) && Distinct(b)
    ensures Negotiated(a, b) == Negotiated(b, a) <==> Agreeing(a, b)
    decreases |a| + |b|
  {
    if a == [] || b == [] {
      NothingShared(a, b);
      NothingShared(b, a);
    } else if !Matched(a[|a| - 1], b) {
      SameViewIff(a[..|a| - 1], b);
      DropUnmatched(a, b);
      UnmatchedAddsNothing(b, a);
      AgreeingWithoutLast(a, b);
    } else if !Matched(b[|b| - 1], a) {
      SameViewIff(a, b[..|b| - 1]);
      DropUnmatched(b, a);
      UnmatchedAddsNothing(a, b);
      AgreeingWithoutOther(a, b);
    } else if Same(a[|a| - 1], b[|b| - 1]) {
      SameViewIff(a[..|a| - 1], b[..|b| - 1]);
      WithBothLast(a, b);
      WithBothLast(b, a);
      AgreeingWithBoth(a, b);
      SameEnds(Negotiated(a[..|a| - 1], b[..|b| - 1]), a[|a| - 1], Negotiated(b[..|b| - 1], a[..|a| - 1]), b[|b| - 1]);
    } else {
      var i :| 0 <= i < |a| && Same(b[|b| - 1], a[i]);
      var k :| 0 <= k < |b| && Same(a[|a| - 1], b[k]);
      CrossedLast(a, b, i, k);
    }
  }

  lemma SameEnds(s: seq<Spec>, x: Spec, t: seq<Spec>, y: Spec)
    ensures s + [x] == t + [y] <==> s == t && x == y
  {
    if s + [x] == t + [y] {
      assert (s + [x])[|s|] == (t + [y])[|t|];
      assert s == (s + [x])[..|s|] && t == (t + [y])[..|t|];
    }
  }

  /** The two ends compute the same table if and only if the protocols they
      share are listed in the same order at both and have the same lengths. */
  lemma TablesAgreeIff(a: seq<Spec>, b: seq<Spec>)
    requires Distinct(a) && Distinct(b)
    ensures Layout(Negotiated(a, b)) == Layout(Negotiated(b, a)) <==> InSameOrder(a, b) && SameLengths(a, b)
  {
    SameViewIff(a, b);
    SameTable(Negotiated(a, b), Negotiated(b, a));
  }

  /** Listing the protocols in any fixed strict order at both ends is enough for the order. */
  lemma SortedEndsAgree(before: Order<Cap>, a: seq<Spec>, b: seq<Spec>)
    requires forall x, y :: before(x, y) ==> !before(y, x)
    requires forall i, j :: 0 <= i < j < |a| ==> before(CapOf(a[i]), CapOf(a[j]))
    requires forall k, l :: 0 <= k < l < |b| ==> before(CapOf(b[k]), CapOf(b[l]))
    ensures Distinct(a) && Distinct(b)
    ensures Layout(Negotiated(a, b)) == Layout(Negotiated(b, a)) <==> SameLengths(a, b)
  {
    forall i, j, k, l | 0 <= i < j < |a| && 0 <= k < |b| && 0 <= l < |b| && Same(a[i], b[k]) && Same(a[j], b[l])
      ensures k < l
    {
      assert before(CapOf(a[i]), CapOf(a[j]));
    }
    TablesAgreeIff(a, b);
  }

  /** A session between two RLPx ends meets the conditions of the end-to-end
      result exactly if they list the shared protocols alike. */
  lemma SessionIff(c: Crypto, snappy: bool, a: seq<Spec>, b: seq<Spec>)
    requires c.Valid() && Distinct(a) && Distinct(b) && NoOverflow(Negotiated(a, b))
    ensures Session(CodecOf(c, snappy), Negotiated(a, b), Negotiated(b, a)).Valid() <==> Agreeing(a, b)
  {
    FramesAreFaithful(c, snappy);
    TablesAgreeIff(a, b);
  }

  // ----- every message reaches its protocol -----

  /** The protocols that have messages. */
  function Busy(specs: seq<Spec>): seq<Spec> {
    if specs == [] then []
    else
      var n := |specs| - 1;
      Busy(specs[..n]) + if specs[n].length > 0 then [specs[n]] else []
  }

  /** What `near` sends as `raw` on its stream `i` is routed to the same protocol by `far`. */
  predicate Routed(near: seq<Spec>, far: seq<Spec>, i: nat, raw: Uint64)
    requires i < |near|
  {
    var o := Owner(Layout(far), raw);
    o.Some? && Same(far[o.value], near[i])
  }

  /** Every message of every protocol of `near` reaches that protocol at `far`. */
  ghost predicate AllRouted(near: seq<Spec>, far: seq<Spec>)
    requires NoOverflow(near)
  {
    forall i: nat, raw: Uint64 :: i < |near| && Covers(Layout(near)[i], raw) ==> Routed(near, far, i, raw)
  }

  lemma {:induction false} BusyMembers(specs: seq<Spec>)
    ensures forall p :: p in Busy(specs) <==> p in specs && p.length > 0
  {
    if specs != [] {
      var n := |specs| - 1;
      BusyMembers(specs[..n]);
      assert specs == specs[..n] + [specs[n]];
    }
  }

  lemma {:induction false} BusyDistinct(specs: seq<Spec>)
    requires Distinct(specs)
    ensures Distinct(Busy(specs))
  {
    if specs != [] {
      var n := |specs| - 1;
      var init := specs[..n];
      BusyDistinct(init);
      BusyMembers(init);
      forall i | 0 <= i < |Busy(init)|
        ensures !Same(Busy(init)[i], specs[n])
      {
        assert Busy(init)[i] in init;
        var k :| 0 <= k < |init| && init[k] == Busy(init)[i];
        assert !Same(specs[k], specs[n]);
      }
    }
  }

  lemma {:induction false} BusyTotal(specs: seq<Spec>)
    ensures Total(Busy(specs)) == Total(specs)
  {
    if specs != [] {
      var n := |specs| - 1;
      BusyTotal(specs[..n]);
      if specs[n].length > 0 {
        assert Busy(specs)[..|Busy(specs)| - 1] == Busy(specs[..n]);
      } else {
        assert Busy(specs) == Busy(specs[..n]);
      }
    }
  }

  /** The lengths of the protocols listed before `p`. */
  function Ahead(specs: seq<Spec>, p: Spec): nat {
    if specs == [] then 0
    else
      var n := |specs| - 1;
      if specs[n] == p then Total(specs[..n]) else Ahead(specs[..n], p)
  }

  lemma {:induction false} AheadIsOffset(specs: seq<Spec>, i: nat)
    requires Distinct(specs) && i < |specs|
    ensures Ahead(specs, specs[i]) == Total(specs[..i])
  {
    var n := |specs| - 1;
    if i < n {
      assert !Same(specs[i], specs[n]);
      AheadIsOffset(specs[..n], i);
      assert specs[..n][..i] == specs[..i];
    }
  }

  /** Protocols without messages take no room. */
  lemma {:induction false} AheadBusy(specs: seq<Spec>, p: Spec)
    requires p.length > 0
    ensures Ahead(Busy(specs), p) == Ahead(specs, p)
  {
    if specs != [] {
      var n := |specs| - 1;
      var w := Busy(specs[..n]);
      AheadBusy(specs[..n], p);
      BusyTotal(specs[..n]);
      if specs[n].length > 0 {
        assert Busy(specs)[..|w|] == w;
      } else {
        assert Busy(specs) == w;
      }
    }
  }

  lemma OffsetIsAhead(specs: seq<Spec>, i: nat)
    requires Distinct(specs) && NoOverflow(specs) && i < |specs|
    ensures var r := Layout(specs)[i];
      && r.offset == BASE_PROTOCOL_LENGTH + Ahead(specs, specs[i]) && r.length == specs[i].length
      && r.offset + r.length < UINT64
  {
    AheadIsOffset(specs, i);
    Consecutive(specs, i);
  }

  /** Same busy protocols in the same order: each message is routed to its protocol. */
  lemma BusyRouted(near: seq<Spec>, far: seq<Spec>)
    requires Distinct(near) && Distinct(far) && NoOverflow(near) && NoOverflow(far) && Busy(near) == Busy(far)
    ensures AllRouted(near, far)
  {
    forall i: nat, raw: Uint64 | i < |near| && Covers(Layout(near)[i], raw)
      ensures Routed(near, far, i, raw)
    {
      OneRouted(near, far, i, raw);
    }
  }

  lemma {:induction false} OneRouted(near: seq<Spec>, far: seq<Spec>, i: nat, raw: Uint64)
    requires Distinct(near) && Distinct(far) && NoOverflow(near) && NoOverflow(far) && Busy(near) == Busy(far)
    requires i < |near| && Covers(Layout(near)[i], raw)
    ensures Routed(near, far, i, raw)
  {
    OffsetIsAhead(near, i);
    var code := raw - Layout(near)[i].offset;
    var j := SameOffset(near, far, i);
    RoutedTo(far, j, code);
  }

  lemma {:induction false} RoutedTo(far: seq<Spec>, j: nat, code: nat)
    requires NoOverflow(far) && j < |far| && code < far[j].length
    ensures Layout(far)[j].offset + code < UINT64 && Owner(Layout(far), Layout(far)[j].offset + code) == Some(j)
  {
    Consecutive(far, j);
    RoutingInverts(far, j, code);
  }

  lemma SameOffset(near: seq<Spec>, far: seq<Spec>, i: nat) returns (j: nat)
    requires Distinct(near) && Distinct(far) && NoOverflow(near) && NoOverflow(far) && Busy(near) == Busy(far)
    requires i < |near| && near[i].length > 0
    ensures j < |far| && far[j] == near[i] && Layout(far)[j].offset == Layout(near)[i].offset
  {
    var p := near[i];
    BusyMembers(near);
    BusyMembers(far);
    assert p in near && p in Busy(near) && p in far;
    j :| 0 <= j < |far| && far[j] == p;
    OffsetIsAhead(near, i);
    OffsetIsAhead(far, j);
    AheadBusy(near, p);
    AheadBusy(far, p);
  }

  /** If both directions are routed right, a busy protocol has the same length and place at both ends. */
  lemma SamePlace(near: seq<Spec>, far: seq<Spec>, i: nat)
    requires Distinct(near) && Distinct(far) && NoOverflow(near) && NoOverflow(far)
    requires AllRouted(near, far) && AllRouted(far, near) && i < |near| && near[i].length > 0
    ensures near[i] in far && Ahead(near, near[i]) == Ahead(far, near[i])
  {
    var j := Enclosed(near, far, i);
    var k := Enclosed(far, near, j);
    assert Same(near[k], near[i]);
    assert k == i;
    OffsetIsAhead(near, i);
    OffsetIsAhead(far, j);
    assert near[i] == far[j];
  }

  /** The range of a busy protocol lies within its range at the other end. */
  lemma {:induction false} Enclosed(near: seq<Spec>, far: seq<Spec>, i: nat) returns (j: nat)
    requires Distinct(near) && Distinct(far) && NoOverflow(near) && NoOverflow(far)
    requires AllRouted(near, far) && i < |near| && near[i].length > 0
    ensures j < |far| && Same(far[j], near[i]) && far[j].length > 0
    ensures var r, q := Layout(near)[i], Layout(far)[j];
      q.offset <= r.offset && r.offset + r.length <= q.offset + q.length
  {
    Consecutive(near, i);
    var r := Layout(near)[i];
    j := Landing(near, far, i, r.offset);
    var l := Landing(near, far, i, r.offset + r.length - 1);
    assert Same(far[j], far[l]);
    assert j == l;
    Consecutive(far, j);
  }

  /** Where one code arrives. */
  lemma {:induction false} Landing(near: seq<Spec>, far: seq<Spec>, i: nat, raw: Uint64) returns (j: nat)
    requires NoOverflow(near) && NoOverflow(far) && AllRouted(near, far) && i < |near|
    requires Layout(near)[i].offset <= raw < Layout(near)[i].offset + near[i].length
    ensures j < |far| && Same(far[j], near[i])
    ensures Layout(far)[j].offset <= raw < Layout(far)[j].offset + far[j].length
  {
    Consecutive(near, i);
    assert Covers(Layout(near)[i], raw);
    assert Routed(near, far, i, raw);
    j := Owner(Layout(far), raw).value;
    Consecutive(far, j);
  }

  /** A busy protocol that is in both lists, with as much ahead of it. */
  predicate Level(v: seq<Spec>, w: seq<Spec>, p: Spec) {
    p in v && p in w && p.length > 0 && Ahead(v, p) == Ahead(w, p)
  }

  ghost predicate AllLevel(v: seq<Spec>, w: seq<Spec>) {
    forall p {:trigger Level(v, w, p)} :: p in v || p in w ==> Level(v, w, p)
  }

  lemma NoMembers(v: seq<Spec>, w: seq<Spec>)
    requires AllLevel(v, w) && (v == [] || w == [])
    ensures v == w
  {
    assert forall p :: p in v || p in w ==> Level(v, w, p);
    assert Elems(v) == Elems(w);
    SomeElem(v);
    SomeElem(w);
  }

  lemma SomeElem(v: seq<Spec>)
    ensures v != [] ==> Elems(v) != {}
  {
    if v != [] { assert v[0] in Elems(v); }
  }

  /** Then they are the same list. */
  lemma {:induction false} SameAheadIsSame(v: seq<Spec>, w: seq<Spec>)
    requires Distinct(v) && Distinct(w) && AllLevel(v, w)
    ensures v == w
    decreases |v|
  {
    if v == [] || w == [] {
      NoMembers(v, w);
    } else {
      var n, m := |v| - 1, |w| - 1;
      LastIsFarthest(v, w);
      DropSame(v, w);
      SameAheadIsSame(v[..n], w[..m]);
      assert v == v[..n] + [v[n]] && w == w[..m] + [w[m]];
    }
  }

  /** What is listed earlier has less ahead of it than the last one. */
  lemma AheadOfLast(v: seq<Spec>, p: Spec)
    requires Distinct(v) && p in v && p.length > 0 && p != v[|v| - 1]
    ensures Ahead(v, p) < Ahead(v, v[|v| - 1])
  {
    var i :| 0 <= i < |v| && v[i] == p;
    AheadIsOffset(v, i);
    TotalGrows(v, i, |v| - 1);
  }

  lemma {:induction false} TotalGrows(v: seq<Spec>, i: nat, n: nat)
    requires i < n <= |v|
    ensures Total(v[..i]) + v[i].length <= Total(v[..n])
  {
    assert v[..n][..n - 1] == v[..n - 1];
    if i < n - 1 {
      TotalGrows(v, i, n - 1);
    }
  }

  lemma LastIsFarthest(v: seq<Spec>, w: seq<Spec>)
    requires Distinct(v) && Distinct(w) && v != [] && w != [] && AllLevel(v, w)
    ensures v[|v| - 1] == w[|w| - 1]
  {
    var x, y := v[|v| - 1], w[|w| - 1];
    assert Level(v, w, x) && Level(v, w, y);
    if x != y {
      AheadOfLast(v, y);
      AheadOfLast(w, x);
    }
  }

  lemma DropSame(v: seq<Spec>, w: seq<Spec>)
    requires Distinct(v) && Distinct(w) && v != [] && w != [] && v[|v| - 1] == w[|w| - 1] && AllLevel(v, w)
    ensures AllLevel(v[..|v| - 1], w[..|w| - 1])
  {
    var v', w' := v[..|v| - 1], w[..|w| - 1];
    NotAgain(v);
    NotAgain(w);
    forall p | p in v' || p in w'
      ensures Level(v', w', p)
    {
      InFront(v, p);
      InFront(w, p);
      assert Level(v, w, p);
    }
  }

  lemma InFront(v: seq<Spec>, p: Spec)
    requires v != []
    ensures p in v <==> p in v[..|v| - 1] || p == v[|v| - 1]
  {
    assert v == v[..|v| - 1] + [v[|v| - 1]];
  }

  lemma NotAgain(v: seq<Spec>)
    requires Distinct(v) && v != []
    ensures v[|v| - 1] !in v[..|v| - 1]
  {
    var n := |v| - 1;
    assert forall i :: 0 <= i < n ==> !Same(v[i], v[n]);
  }

  lemma RoutedBusy(near: seq<Spec>, far: seq<Spec>)
    requires Distinct(near) && Distinct(far) && NoOverflow(near) && NoOverflow(far)
    requires AllRouted(near, far) && AllRouted(far, near)
    ensures Busy(near) == Busy(far)
  {
    BusyDistinct(near);
    BusyDistinct(far);
    BusyMembers(near);
    BusyMembers(far);
    forall p | p in Busy(near) || p in Busy(far)
      ensures Level(Busy(near), Busy(far), p)
    {
      if p in near {
        var i :| 0 <= i < |near| && near[i] == p;
        SamePlace(near, far, i);
      } else {
        var i :| 0 <= i < |far| && far[i] == p;
        SamePlace(far, near, i);
      }
      AheadBusy(near, p);
      AheadBusy(far, p);
    }
    SameAheadIsSame(Busy(near), Busy(far));
  }

  // ----- and when it does -----

  lemma {:induction false} MemberIff(a: seq<Spec>, b: seq<Spec>, x: Spec)
    requires Distinct(a)
    ensures x in Negotiated(a, b) <==> x in a && Matched(x, b)
  {
    if b == [] {
      NothingShared(a, b);
    } else {
      var n := |b| - 1;
      var y := b[n];
      MemberIff(a, b[..n], x);
      MatchedLast(x, b);
      LastCap(a, b);
      FoundIff(a, y, x);
    }
  }

  lemma MatchedLast(x: Spec, b: seq<Spec>)
    requires b != []
    ensures Matched(x, b) <==> Matched(x, b[..|b| - 1]) || Same(x, b[|b| - 1])
  {
    var init := b[..|b| - 1];
    assert forall i :: 0 <= i < |init| ==> init[i] == b[i];
    if Matched(x, init) {
      var i :| 0 <= i < |init| && Same(x, init[i]);
      assert Same(x, b[i]);
    }
  }

  /** What a capability finds: the protocol with its name and version. */
  lemma FoundIff(a: seq<Spec>, y: Spec, x: Spec)
    requires Distinct(a)
    ensures Protocol(a, CapOf(y)) == Some(x) <==> x in a && Same(x, y)
  {
    ProtocolIsFirst(a, CapOf(y));
    if x in a && Same(x, y) {
      var i :| 0 <= i < |a| && a[i] == x;
      Found(a, y, i);
    }
  }

  lemma {:induction false} NegotiatedDistinct(a: seq<Spec>, b: seq<Spec>)
    requires Distinct(a) && Distinct(b)
    ensures Distinct(Negotiated(a, b))
  {
    if b == [] {
      NothingShared(a, b);
    } else {
      var n := |b| - 1;
      var init, p := b[..n], Protocol(a, CapOf(b[n]));
      NegotiatedDistinct(a, init);
      LastCap(a, b);
      if p.Some? {
        FoundIff(a, b[n], p.value);
        var v := Negotiated(a, init);
        forall i | 0 <= i < |v|
          ensures !Same(v[i], p.value)
        {
          MemberIff(a, init, v[i]);
          var k :| 0 <= k < |init| && Same(v[i], init[k]);
          assert !Same(b[k], b[n]);
        }
      }
    }
  }

  /** Picking the shared protocols and leaving out those without messages, in either order. */
  lemma {:induction false} BusyNegotiated(a: seq<Spec>, b: seq<Spec>)
    requires Distinct(a) && Distinct(b) && SameLengths(a, b)
    ensures Busy(Negotiated(a, b)) == Negotiated(Busy(a), Busy(b))
  {
    if b == [] {
      NothingShared(a, b);
      NothingShared(Busy(a), []);
    } else {
      var n := |b| - 1;
      var y, init := b[n], b[..n];
      var p := Protocol(a, CapOf(y));
      assert forall k :: 0 <= k < n ==> init[k] == b[k];
      BusyNegotiated(a, init);
      LastCap(a, b);
      BusyFound(a, b);
      BusyPush(Negotiated(a, init), p);
      if y.length > 0 {
        LastCap(Busy(a), Busy(b));
        assert Busy(b)[..|Busy(b)| - 1] == Busy(init);
      } else {
        assert Busy(b) == Busy(init);
      }
    }
  }

  lemma BusyPush(v: seq<Spec>, p: Option<Spec>)
    ensures Busy(v + if p.Some? then [p.value] else []) ==
            Busy(v) + if p.Some? && p.value.length > 0 then [p.value] else []
  {
    if p.Some? {
      assert (v + [p.value])[..|v|] == v;
    } else {
      assert v + [] == v;
    }
  }

  /** The last announced capability finds the same among the busy protocols, if it is busy itself. */
  lemma BusyFound(a: seq<Spec>, b: seq<Spec>)
    requires Distinct(a) && b != [] && SameLengths(a, b)
    ensures var y := b[|b| - 1]; var p := Protocol(a, CapOf(y));
      && (p.Some? ==> p.value.length == y.length)
      && (y.length > 0 ==> Protocol(Busy(a), CapOf(y)) == p)
  {
    var y := b[|b| - 1];
    var p, q := Protocol(a, CapOf(y)), Protocol(Busy(a), CapOf(y));
    BusyDistinct(a);
    BusyMembers(a);
    if p.Some? {
      FoundIff(a, y, p.value);
      FoundIff(Busy(a), y, p.value);
      var i :| 0 <= i < |a| && a[i] == p.value;
      assert Same(a[i], b[|b| - 1]);
    }
    if q.Some? {
      FoundIff(a, y, q.value);
      FoundIff(Busy(a), y, q.value);
    }
  }

  /** With different lengths for a shared protocol the busy lists differ. */
  lemma LengthsDiffer(a: seq<Spec>, b: seq<Spec>, i: nat, k: nat)
    requires Distinct(a) && Distinct(b) && i < |a| && k < |b| && Same(a[i], b[k]) && a[i].length > 0
    requires a[i].length != b[k].length
    ensures Busy(Negotiated(a, b)) != Busy(Negotiated(b, a))
  {
    var x := a[i];
    MemberIff(a, b, x);
    MemberIff(b, a, x);
    BusyMembers(Negotiated(a, b));
    BusyMembers(Negotiated(b, a));
    assert x in a && Matched(x, b);
    forall l | 0 <= l < |b|
      ensures b[l] != x
    {
      assert l != k ==> !Same(b[l], b[k]);
    }
  }

  lemma BusyAgreeIff(a: seq<Spec>, b: seq<Spec>)
    requires Distinct(a) && Distinct(b)
    ensures Busy(Negotiated(a, b)) == Busy(Negotiated(b, a)) <==> SameLengths(a, b) && InSameOrder(Busy(a), Busy(b))
  {
    if SameLengths(a, b) {
      assert SameLengths(b, a);
      BusyNegotiated(a, b);
      BusyNegotiated(b, a);
      BusyDistinct(a);
      BusyDistinct(b);
      BusyLengths(a, b);
      SameViewIff(Busy(a), Busy(b));
    } else {
      var i, k :| 0 <= i < |a| && 0 <= k < |b| && Same(a[i], b[k]) && a[i].length != b[k].length;
      if a[i].length > 0 { LengthsDiffer(a, b, i, k); } else { LengthsDiffer(b, a, k, i); }
    }
  }

  lemma BusyLengths(a: seq<Spec>, b: seq<Spec>)
    requires SameLengths(a, b)
    ensures SameLengths(Busy(a), Busy(b))
  {
    BusyMembers(a);
    BusyMembers(b);
    forall i, k | 0 <= i < |Busy(a)| && 0 <= k < |Busy(b)| && Same(Busy(a)[i], Busy(b)[k])
      ensures Busy(a)[i].length == Busy(b)[k].length
    {
      assert Busy(a)[i] in a && Busy(b)[k] in b;
      var j :| 0 <= j < |a| && a[j] == Busy(a)[i];
      var l :| 0 <= l < |b| && b[l] == Busy(b)[k];
      assert Same(a[j], b[l]);
    }
  }

  /** Every message of every shared protocol reaches that protocol at the other
      end, in both directions, if and only if the shared protocols have the
      same lengths and those with messages are listed in the same order. */
  lemma RoutedIff(a: seq<Spec>, b: seq<Spec>)
    requires Distinct(a) && Distinct(b) && NoOverflow(Negotiated(a, b)) && NoOverflow(Negotiated(b, a))
    ensures AllRouted(Negotiated(a, b), Negotiated(b, a)) && AllRouted(Negotiated(b, a), Negotiated(a, b))
            <==> SameLengths(a, b) && InSameOrder(Busy(a), Busy(b))
  {
    var near, far := Negotiated(a, b), Negotiated(b, a);
    NegotiatedDistinct(a, b);
    NegotiatedDistinct(b, a);
    BusyAgreeIff(a, b);
    if Busy(near) == Busy(far) {
      BusyRouted(near, far);
      BusyRouted(far, near);
    } else if AllRouted(near, far) && AllRouted(far, near) {
      RoutedBusy(near, far);
    }
  }

  // ----- two ends that disagree -----

  const ETH := Spec("eth", 63, 17)
  const SNAP := Spec("snap", 1, 8)

  /** Two protocols listed one way at one end and the other way at the other. */
  lemma CrossedView(p: Spec, q: Spec)
    requires !Same(p, q)
    ensures Distinct([p, q]) && Negotiated([p, q], [q, p]) == [q, p]
  {
    var a, b := [p, q], [q, p];
    assert b[..1] == [q] && [q][..0] == [];
    LastCap(a, b);
    LastCap(a, [q]);
    NothingShared(a, []);
    Found(a, q, 1);
    Found(a, p, 0);
  }

  /** One end lists eth before snap, the other snap before eth.  The first
      end's eth messages then go to the other end's snap stream. */
  lemma MessagesCanBeMisrouted()
    ensures var near, far := Negotiated([ETH, SNAP], [SNAP, ETH]), Negotiated([SNAP, ETH], [ETH, SNAP]);
      && |near| == |far| == 2 && near[1] == ETH && far[1] == SNAP
      && Layout(near)[1].offset + 16 < UINT64 && Owner(Layout(far), Layout(near)[1].offset + 16) == Some(1)
  {
    CrossedView(ETH, SNAP);
    CrossedView(SNAP, ETH);
    TwoProtocols(SNAP, ETH);
    TwoProtocols(ETH, SNAP);
  }

  lemma TwoProtocols(p: Spec, q: Spec)
    requires p.length < 0x100 && q.length < 0x100
    ensures Layout([p, q])[0] == Range(16, p.length, p) && Layout([p, q])[1] == Range(16 + p.length, q.length, q)
  {
    assert [p, q][..1] == [p] && [p][..0] == [];
    LayoutStep([], p);
    LayoutStep([p], q);
    assert [] + [p] == [p] && [p] + [q] == [p, q];
  }
}
