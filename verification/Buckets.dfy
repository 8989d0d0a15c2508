/** A k-bucket: a list of entries, most recently seen first. */
module Buckets {
  import opened Basics
  import opened XorMetric

  datatype Entry = Entry(id: string, hash: ID)

  function Ids(l: seq<Entry>): (ids: seq<string>)
    ensures |ids| == |l|
    ensures forall i :: 0 <= i < |l| ==> ids[i] == l[i].id
  {
    seq(|l|, i requires 0 <= i < |l| => l[i].id)
  }

  ghost predicate Unique(l: seq<Entry>) {
    forall i, j :: 0 <= i < j < |l| ==> l[i].id != l[j].id
  }

  /** `id` is at most one entry's identifier. */
  ghost predicate AtMostOnce(l: seq<Entry>, id: string) {
    forall i, j :: 0 <= i < j < |l| ==> !(l[i].id == l[j].id == id)
  }

  /** Position of the first entry named `id`, or `|l|`. */
  function IndexOf(l: seq<Entry>, id: string): (k: nat)
    ensures k <= |l|
    ensures forall i :: 0 <= i < k ==> l[i].id != id
    ensures k < |l| ==> l[k].id == id
  {
    if l == [] || l[0].id == id then 0 else 1 + IndexOf(l[1..], id)
  }

  predicate Holds(l: seq<Entry>, id: string) {
    IndexOf(l, id) < |l|
  }

  lemma HoldsMeansMember(l: seq<Entry>, id: string)
    ensures Holds(l, id) <==> id in Ids(l)
  {
    if id in Ids(l) {
      var i :| 0 <= i < |l| && Ids(l)[i] == id;
      assert l[i].id == id;
    }
    if Holds(l, id) {
      assert Ids(l)[IndexOf(l, id)] == id;
    }
  }

  function Without(l: seq<Entry>, id: string): seq<Entry> {
    var k := IndexOf(l, id);
    if k < |l| then WithoutAt(l, k) else l
  }

  function FrontAt(l: seq<Entry>, k: nat): seq<Entry>
    requires k < |l|
  {
    [l[k]] + WithoutAt(l, k)
  }

  function MovedToFront(l: seq<Entry>, id: string): seq<Entry> {
    var k := IndexOf(l, id);
    if k < |l| then FrontAt(l, k) else l
  }

  // ----- filtering by common-prefix length -----

  ghost predicate Measurable(l: seq<Entry>, target: ID) {
    forall i :: 0 <= i < |l| ==> |l[i].hash| == |target|
  }

  /** The entries whose common prefix with `target` is longer than `cpl` (`more`), or not, in order. */
  function Select(l: seq<Entry>, cpl: nat, target: ID, more: bool): seq<Entry>
    requires Measurable(l, target)
  {
    if l == [] then []
    else
      var n := |l| - 1;
      Select(l[..n], cpl, target, more) + if (Cpl(l[n].hash, target) > cpl) == more then [l[n]] else []
  }

  lemma SelectOne(e: Entry, cpl: nat, target: ID, more: bool)
    requires |e.hash| == |target|
    ensures Select([e], cpl, target, more) == if (Cpl(e.hash, target) > cpl) == more then [e] else []
  {
    assert [e][..0] == [];
    assert Select([e][..0], cpl, target, more) == [];
  }

  lemma {:induction false} SelectMembers(l: seq<Entry>, cpl: nat, target: ID, more: bool)
    requires Measurable(l, target)
    ensures forall e :: e in Select(l, cpl, target, more) <==> e in l && (Cpl(e.hash, target) > cpl) == more
  {
    if l != [] {
      SelectMembers(l[..|l| - 1], cpl, target, more);
      assert l == l[..|l| - 1] + [l[|l| - 1]];
    }
  }

  lemma {:induction false} SelectUnique(l: seq<Entry>, cpl: nat, target: ID, more: bool)
    requires Measurable(l, target) && Unique(l)
    ensures Unique(Select(l, cpl, target, more))
  {
    if l != [] {
      var n := |l| - 1;
      var r := Select(l[..n], cpl, target, more);
      SelectUnique(l[..n], cpl, target, more);
      SelectMembers(l[..n], cpl, target, more);
      forall i | 0 <= i < |r|
        ensures r[i].id != l[n].id
      {
        assert r[i] in l[..n];
      }
    }
  }

  /** Splitting loses, invents and duplicates nothing. */
  lemma {:induction false} SelectPartition(l: seq<Entry>, cpl: nat, target: ID)
    requires Measurable(l, target)
    ensures multiset(Select(l, cpl, target, true)) + multiset(Select(l, cpl, target, false)) == multiset(l)
    ensures |Select(l, cpl, target, true)| + |Select(l, cpl, target, false)| == |l|
  {
    if l != [] {
      SelectPartition(l[..|l| - 1], cpl, target);
      assert l == l[..|l| - 1] + [l[|l| - 1]];
    }
  }

  ghost predicate Embeds(s: seq<Entry>, l: seq<Entry>, pos: seq<nat>) {
    && |pos| == |s|
    && (forall i :: 0 <= i < |s| ==> pos[i] < |l| && s[i] == l[pos[i]])
    && forall i, j :: 0 <= i < j < |s| ==> pos[i] < pos[j]
  }

  /** `s` is made of elements of `l`, in the order they have there. */
  ghost predicate SubOrder(s: seq<Entry>, l: seq<Entry>) {
    exists pos :: Embeds(s, l, pos)
  }

  lemma SubOrderTransitive(s: seq<Entry>, l: seq<Entry>, m: seq<Entry>)
    requires SubOrder(s, l) && SubOrder(l, m)
    ensures SubOrder(s, m)
  {
    var p :| Embeds(s, l, p);
    var q :| Embeds(l, m, q);
    assert Embeds(s, m, seq(|s|, i requires 0 <= i < |s| => q[p[i]]));
  }

  lemma {:induction false} SelectKeepsOrder(l: seq<Entry>, cpl: nat, target: ID, more: bool)
    requires Measurable(l, target)
    ensures SubOrder(Select(l, cpl, target, more), l)
  {
    if l == [] {
      assert Embeds([], [], []);
    } else {
      var n := |l| - 1;
      SelectKeepsOrder(l[..n], cpl, target, more);
      var r := Select(l[..n], cpl, target, more);
      SubOrderExtend(r, l[..n], l[n]);
      assert l == l[..n] + [l[n]] && r + [] == r;
    }
  }

  lemma SubOrderExtend(s: seq<Entry>, l: seq<Entry>, e: Entry)
    requires SubOrder(s, l)
    ensures SubOrder(s, l + [e]) && SubOrder(s + [e], l + [e])
  {
    var pos: seq<nat> :| Embeds(s, l, pos);
    assert Embeds(s, l + [e], pos);
    assert Embeds(s + [e], l + [e], pos + [|l|]);
  }

  /** One more element of the scanned list. */
  lemma SelectStep(l: seq<Entry>, i: nat, cpl: nat, target: ID, more: bool)
    requires i < |l| && Measurable(l, target)
    ensures Select(l[..i + 1], cpl, target, more)
         == Select(l[..i], cpl, target, more) + if (Cpl(l[i].hash, target) > cpl) == more then [l[i]] else []
  {
    assert l[..i + 1][..i] == l[..i];
  }

  // ----- the bucket object -----

  class Bucket {
    var list: seq<Entry>

    constructor ()
      ensures list == []
    {
      list := [];
    }

    method Peers() returns (ps: seq<string>)
      ensures ps == Ids(list)
    {
      ps := [];
      for i := 0 to |list|
        invariant |ps| == i && forall j :: 0 <= j < i ==> ps[j] == list[j].id
      {
        ps := ps + [list[i].id];
      }
    }

    method Has(id: string) returns (found: bool)
      ensures found <==> id in Ids(list)
    {
      for i := 0 to |list|
        invariant forall j :: 0 <= j < i ==> list[j].id != id
      {
        if list[i].id == id {
          assert Ids(list)[i] == id;
          return true;
        }
      }
      return false;
    }

    method Len() returns (n: nat)
      ensures n == |list|
    {
      n := |list|;
    }

    method PushFront(e: Entry)
      modifies this
      ensures list == [e] + old(list)
    {
      list := [e] + list;
    }

    method Remove(id: string) returns (removed: bool)
      modifies this
      ensures list == Without(old(list), id)
      ensures removed <==> id in Ids(old(list))
    {
      HoldsMeansMember(list, id);
      for i := 0 to |list|
        invariant list == old(list)
        invariant forall j :: 0 <= j < i ==> list[j].id != id
      {
        if list[i].id == id {
          list := list[..i] + list[i + 1..];
          return true;
        }
      }
      return false;
    }

    /** The source's loop goes on from the new front after each move, so it
        scans the list again; it ends because `id` occurs at most once
        (`MoveToFrontHaltsIff` shows this is exactly the condition). */
    method MoveToFront(id: string)
      requires AtMostOnce(list, id)
      modifies this
      ensures list == MovedToFront(old(list), id)
    {
      var i, moved := 0, false;
      while i < |list|
        invariant i <= |list| == |old(list)|
        invariant !moved ==> list == old(list) && forall j :: 0 <= j < i ==> list[j].id != id
        invariant moved ==> list == MovedToFront(old(list), id) && i >= 1
        invariant moved ==> forall j :: 1 <= j < |list| ==> list[j].id != id
        decreases !moved, |list| - i
      {
        if list[i].id == id {
          assert i == IndexOf(list, id);
          list := FrontAt(list, i);
          i, moved := 1, true;
        } else {
          i := i + 1;
        }
      }
    }

    method Split(cpl: nat, target: ID) returns (out: Bucket)
      requires Measurable(list, target)
      modifies this
      ensures fresh(out)
      ensures list == Select(old(list), cpl, target, false)
      ensures out.list == Select(old(list), cpl, target, true)
    {
      out := new Bucket();
      var at := 0;
      ghost var all, i := list, 0;
      while at < |list|
        invariant 0 <= i <= |all| && at <= |list|
        invariant list[..at] == Select(all[..i], cpl, target, false)
        invariant out.list == Select(all[..i], cpl, target, true)
        invariant list[at..] == all[i..]
        decreases |list| - at
      {
        var e := list[at];
        assert e == list[at..][0] == all[i];
        SelectStep(all, i, cpl, target, true);
        SelectStep(all, i, cpl, target, false);
        var peerCpl := CommonPrefixLen(e.hash, target);
        if peerCpl > cpl {
          out.list := out.list + [e];
          list := list[..at] + list[at + 1..];
        } else {
          at := at + 1;
        }
        i := i + 1;
      }
      assert all[..i] == all && list[..at] == list;
    }
  }

  // ----- when the MoveToFront loop ends -----

  /** One turn of the loop: the list and the cursor. */
  datatype Scan = Scan(list: seq<Entry>, at: nat)

  function Turn(s: Scan, id: string): Scan
    requires s.at < |s.list|
  {
    if s.list[s.at].id == id then Scan(FrontAt(s.list, s.at), 1) else Scan(s.list, s.at + 1)
  }

  /** The loop is still running after `n` turns. */
  predicate Running(s: Scan, id: string, n: nat)
    decreases n
  {
    s.at < |s.list| && (n == 0 || Running(Turn(s, id), id, n - 1))
  }

  /** An occurrence at or after the cursor, besides one at the front if the cursor has left it. */
  ghost predicate Trapped(s: Scan, id: string) {
    exists i, j :: TrappedAt(s, id, i, j)
  }

  predicate TrappedAt(s: Scan, id: string, i: int, j: int) {
    0 <= i < j < |s.list| && s.at <= j && (s.at <= i || i == 0) && s.list[i].id == s.list[j].id == id
  }

  lemma {:induction false} TrappedNeverHalts(s: Scan, id: string, n: nat)
    requires Trapped(s, id)
    ensures Running(s, id, n)
    decreases n
  {
    if n > 0 {
      TurnStaysTrapped(s, id);
      TrappedNeverHalts(Turn(s, id), id, n - 1);
    }
  }

  lemma TurnStaysTrapped(s: Scan, id: string)
    requires Trapped(s, id)
    ensures s.at < |s.list| && Trapped(Turn(s, id), id)
  {
    var i, j :| TrappedAt(s, id, i, j);
    if s.list[s.at].id == id {
      // the moved entry is in front, and the other occurrence is still behind it
      var k := if s.at == j then i else j;
      StillBehind(s.list, s.at, k);
      var k' := if k < s.at then k + 1 else k;
      assert Turn(s, id) == Scan(FrontAt(s.list, s.at), 1);
      assert TrappedAt(Turn(s, id), id, 0, k');
    } else {
      assert Turn(s, id) == Scan(s.list, s.at + 1);
      assert TrappedAt(Turn(s, id), id, i, j);
    }
  }

  lemma StillBehind(l: seq<Entry>, at: nat, k: nat)
    requires at < |l| && k < |l| && k != at
    ensures FrontAt(l, at)[if k < at then k + 1 else k] == l[k] && FrontAt(l, at)[0] == l[at]
  {}

  /** Turns after which the loop has surely ended when `id` occurs at most once. */
  lemma {:induction false} SingleOccurrenceHalts(s: Scan, id: string, moved: bool, n: nat)
    requires s.at <= |s.list| && AtMostOnce(s.list, id)
    requires moved ==> forall j :: s.at <= j < |s.list| ==> s.list[j].id != id
    requires n >= (if moved then |s.list| - s.at else 2 * |s.list| - s.at)
    ensures !Running(s, id, n)
    decreases n
  {
    if s.at < |s.list| && n > 0 {
      var t := Turn(s, id);
      if s.list[s.at].id == id {
        forall i, j | 0 <= i < j < |t.list|
          ensures !(t.list[i].id == t.list[j].id == id)
          ensures t.list[j].id != id
        {
          assert t.list[j] == s.list[if j <= s.at then j - 1 else j];
        }
        SingleOccurrenceHalts(t, id, true, n - 1);
      } else {
        SingleOccurrenceHalts(t, id, moved, n - 1);
      }
    }
  }

  /** The loop of MoveToFront ends if and only if `id` occurs at most once in the list. */
  lemma MoveToFrontHaltsIff(l: seq<Entry>, id: string)
    ensures (exists n: nat :: !Running(Scan(l, 0), id, n)) <==> AtMostOnce(l, id)
  {
    if AtMostOnce(l, id) {
      SingleOccurrenceHalts(Scan(l, 0), id, false, 2 * |l|);
    } else {
      var i, j :| 0 <= i < j < |l| && l[i].id == l[j].id == id;
      assert TrappedAt(Scan(l, 0), id, i, j);
      forall n: nat
        ensures Running(Scan(l, 0), id, n)
      {
        TrappedNeverHalts(Scan(l, 0), id, n);
      }
    }
  }

  // ----- what the list operations keep -----

  lemma PushFrontFacts(l: seq<Entry>, e: Entry)
    ensures multiset([e] + l) == multiset{e} + multiset(l)
    ensures Unique(l) && e.id !in Ids(l) ==> Unique([e] + l)
  {
    assert forall i :: 0 <= i < |l| ==> Ids(l)[i] == l[i].id;
  }

  lemma RemoveFacts(l: seq<Entry>, k: nat)
    requires k < |l|
    ensures multiset(l) == multiset{l[k]} + multiset(WithoutAt(l, k))
    ensures Unique(l) ==> Unique(WithoutAt(l, k)) && l[k].id !in Ids(WithoutAt(l, k))
  {
    assert l == l[..k] + [l[k]] + l[k + 1..];
    var r := WithoutAt(l, k);
    assert forall i :: 0 <= i < |r| ==> r[i] == l[if i < k then i else i + 1];
  }

  /** Moving to the front permutes the bucket and changes nothing but that one position. */
  lemma MoveFacts(l: seq<Entry>, id: string)
    ensures multiset(MovedToFront(l, id)) == multiset(l)
    ensures Unique(l) ==> Unique(MovedToFront(l, id))
    ensures id in Ids(l) ==> MovedToFront(l, id)[0].id == id
    ensures Without(MovedToFront(l, id), id) == Without(l, id)
  {
    HoldsMeansMember(l, id);
    var k := IndexOf(l, id);
    if k < |l| {
      RemoveFacts(l, k);
      PushFrontFacts(WithoutAt(l, k), l[k]);
      FrontFirst(WithoutAt(l, k), l[k]);
    }
  }

  lemma FrontFirst(l: seq<Entry>, e: Entry)
    ensures Without([e] + l, e.id) == l
  {
    assert ([e] + l)[1..] == l && ([e] + l)[..0] + l == l;
  }
}
