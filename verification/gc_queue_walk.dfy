/** What queue_ephemerons_for_key does when several ephemerons share a key. */
module GcQueueWalk {
  import opened GcHeap

  /** The link fields: `next` maps the bucket slot and every ephemeron to the ephemeron it links
      to, or to 0; `queue` is the head of the queue and `loc` the location under inspection. */
  datatype State = State(next: map<int, int>, queue: int, loc: int)

  function Entry(s: State, loc: int): int {
    if loc in s.next then s.next[loc] else 0
  }

  /** One iteration of the loop; `keyed` holds the ephemerons with the wanted key. */
  function Step(s: State, keyed: set<int>): State {
    var e := Entry(s, s.loc);
    if e in keyed
    then State(s.next[s.loc := Entry(s, e)][e := s.queue], e, e)
    else s.(loc := e)
  }

  function Run(s: State, keyed: set<int>, n: nat): State
    decreases n
  {
    if n == 0 || Entry(s, s.loc) == 0 then s else Run(Step(s, keyed), keyed, n - 1)
  }

  ghost predicate Terminates(s: State, keyed: set<int>) {
    exists n: nat :: Entry(Run(s, keyed, n), Run(s, keyed, n).loc) == 0
  }

  /** The list xs hangs on location loc. */
  ghost predicate ListAt(s: State, loc: int, xs: seq<int>)
    decreases |xs|
  {
    if xs == [] then Entry(s, loc) == 0
    else xs[0] != 0 && Entry(s, loc) == xs[0] && ListAt(s, xs[0], xs[1..])
  }

  /** Writing elsewhere keeps a list. */
  lemma {:induction false} Frame(s: State, s': State, loc: int, xs: seq<int>)
    requires ListAt(s, loc, xs)
    requires Entry(s', loc) == Entry(s, loc) && forall x :: x in xs ==> Entry(s', x) == Entry(s, x)
    ensures ListAt(s', loc, xs)
    decreases |xs|
  {
    if xs != [] { Frame(s, s', xs[0], xs[1..]); }
  }

  lemma StepTerminates(s: State, keyed: set<int>)
    requires Entry(s, s.loc) != 0
    ensures Terminates(s, keyed) <==> Terminates(Step(s, keyed), keyed)
  {
    if Terminates(s, keyed) {
      var n: nat :| Entry(Run(s, keyed, n), Run(s, keyed, n).loc) == 0;
      assert Run(s, keyed, n) == Run(Step(s, keyed), keyed, n - 1);
    }
    if Terminates(Step(s, keyed), keyed) {
      var n: nat :| Entry(Run(Step(s, keyed), keyed, n), Run(Step(s, keyed), keyed, n).loc) == 0;
      assert Run(s, keyed, n + 1) == Run(Step(s, keyed), keyed, n);
    }
  }

  /** Two keyed ephemerons at the head of the queue swap places for ever. */
  ghost predicate Spins(s: State, keyed: set<int>) {
    s.loc == s.queue && s.loc in keyed && Entry(s, s.loc) in keyed
  }

  lemma {:induction false} SpinsForEver(s: State, keyed: set<int>, n: nat)
    requires Spins(s, keyed) && 0 !in keyed
    ensures Spins(Run(s, keyed, n), keyed)
    decreases n
  {
    if n > 0 { SpinsForEver(Step(s, keyed), keyed, n - 1); }
  }

  ghost predicate SomeKeyed(xs: seq<int>, keyed: set<int>) {
    exists x :: x in xs && x in keyed
  }

  /** After a match, the walk goes through the old queue; it ends unless that holds another match. */
  lemma {:induction false} QueuePart(s: State, keyed: set<int>, q: seq<int>)
    requires ListAt(s, s.loc, q) && s.queue in keyed && 0 !in keyed
    ensures Terminates(s, keyed) <==> !SomeKeyed(q, keyed)
    decreases |q|
  {
    if q == [] {
      assert Run(s, keyed, 0) == s;
    } else if q[0] in keyed {
      StepTerminates(s, keyed);
      forall n: nat ensures Entry(Run(Step(s, keyed), keyed, n), Run(Step(s, keyed), keyed, n).loc) != 0 {
        SpinsForEver(Step(s, keyed), keyed, n);
      }
    } else {
      StepTerminates(s, keyed);
      Frame(s, Step(s, keyed), q[0], q[1..]);
      QueuePart(Step(s, keyed), keyed, q[1..]);
      assert forall x :: x in q <==> x == q[0] || x in q[1..];
    }
  }

  /** q hangs on the queue head. */
  ghost predicate QueueIs(s: State, q: seq<int>) {
    if q == [] then s.queue == 0 else s.queue == q[0] != 0 && ListAt(s, q[0], q[1..])
  }

  ghost predicate Separate(s: State, bucket: seq<int>, q: seq<int>) {
    && s.loc !in q && s.loc !in bucket
    && (forall x :: x in bucket ==> x !in q)
    && (forall i, j :: 0 <= i < j < |bucket| ==> bucket[i] != bucket[j])
  }

  /** After the first match, the walk goes on in the old queue. */
  lemma AfterMatch(s: State, keyed: set<int>, bucket: seq<int>, q: seq<int>)
    requires ListAt(s, s.loc, bucket) && QueueIs(s, q) && Separate(s, bucket, q)
    requires bucket != [] && bucket[0] in keyed
    ensures var s' := Step(s, keyed);
      s'.loc == s'.queue == bucket[0] && ListAt(s', s'.loc, q) && ListAt(s', s.loc, bucket[1..])
  {
    var s' := Step(s, keyed);
    var e := bucket[0];
    assert e in bucket;
    if q != [] { Frame(s, s', q[0], q[1..]); }
    if bucket[1..] != [] {
      assert bucket[1] in bucket[1..];
      assert ListAt(s, e, bucket[1..]);
      Frame(s, s', bucket[1], bucket[1..][1..]);
    }
  }

  /** The walk over a bucket ends just when the bucket or the queue holds no match.  In particular
      it never ends when an ephemeron with the wanted key is queued and another one is found. */
  lemma {:induction false} WalkEndsExactly(s: State, keyed: set<int>, bucket: seq<int>, q: seq<int>)
    requires ListAt(s, s.loc, bucket) && QueueIs(s, q) && Separate(s, bucket, q) && 0 !in keyed
    ensures Terminates(s, keyed) <==> !(SomeKeyed(bucket, keyed) && SomeKeyed(q, keyed))
    decreases |bucket|
  {
    if bucket == [] {
      assert Run(s, keyed, 0) == s;
    } else {
      var s' := Step(s, keyed);
      StepTerminates(s, keyed);
      assert bucket[0] in bucket;
      if bucket[0] in keyed {
        AfterMatch(s, keyed, bucket, q);
        QueuePart(s', keyed, q);
      } else {
        Frame(s, s', bucket[0], bucket[1..]);
        if q != [] { Frame(s, s', q[0], q[1..]); }
        assert forall x :: x in bucket <==> x == bucket[0] || x in bucket[1..];
        WalkEndsExactly(s', keyed, bucket[1..], q);
      }
    }
  }

  /** xs without its first element in `keyed`. */
  function DropFirst(xs: seq<int>, keyed: set<int>): seq<int> {
    if xs == [] then []
    else if xs[0] in keyed then xs[1..]
    else [xs[0]] + DropFirst(xs[1..], keyed)
  }

  lemma {:induction false} QueueUntouched(s: State, keyed: set<int>, q: seq<int>, n: nat)
    requires ListAt(s, s.loc, q) && !SomeKeyed(q, keyed) && 0 !in keyed
    ensures Run(s, keyed, n).next == s.next && Run(s, keyed, n).queue == s.queue
    decreases n
  {
    if n > 0 && q != [] {
      Frame(s, Step(s, keyed), q[0], q[1..]);
      assert q[0] in q && forall x :: x in q[1..] ==> x in q;
      QueueUntouched(Step(s, keyed), keyed, q[1..], n - 1);
    }
  }

  /** The first element of xs in `keyed`, as a list. */
  function FirstOf(xs: seq<int>, keyed: set<int>): seq<int> {
    if xs == [] then [] else if xs[0] in keyed then [xs[0]] else FirstOf(xs[1..], keyed)
  }

  /** A walk that ends moves only the first match from the bucket to the head of the queue: when
      several ephemerons share the key, the others stay behind. */
  lemma {:induction false} WalkTakesFirst(s: State, keyed: set<int>, bucket: seq<int>, q: seq<int>, n: nat)
    requires ListAt(s, s.loc, bucket) && QueueIs(s, q) && Separate(s, bucket, q) && 0 !in keyed
    requires !SomeKeyed(q, keyed) && Entry(Run(s, keyed, n), Run(s, keyed, n).loc) == 0
    ensures ListAt(Run(s, keyed, n), s.loc, DropFirst(bucket, keyed))
    ensures QueueIs(Run(s, keyed, n), FirstOf(bucket, keyed) + q)
    ensures forall x :: x != s.loc && x !in bucket ==> Entry(Run(s, keyed, n), x) == Entry(s, x)
    decreases |bucket|
  {
    if bucket == [] {
      assert Run(s, keyed, n) == s && [] + q == q;
    } else {
      var s' := Step(s, keyed);
      var e := bucket[0];
      assert e in bucket && n > 0;
      assert forall x :: x in bucket <==> x == e || x in bucket[1..];
      if e in keyed {
        AfterMatch(s, keyed, bucket, q);
        QueueUntouched(s', keyed, q, n - 1);
        SameList(s', Run(s, keyed, n), s.loc, bucket[1..]);
        SameList(s', Run(s, keyed, n), e, q);
        assert ([e] + q)[1..] == q;
      } else {
        Frame(s, s', e, bucket[1..]);
        if q != [] { Frame(s, s', q[0], q[1..]); }
        WalkTakesFirst(s', keyed, bucket[1..], q, n - 1);
        assert Entry(Run(s, keyed, n), s.loc) == e;
        assert DropFirst(bucket, keyed)[1..] == DropFirst(bucket[1..], keyed);
      }
    }
  }

  lemma SameList(s: State, s': State, loc: int, xs: seq<int>)
    requires s'.next == s.next && ListAt(s, loc, xs)
    ensures ListAt(s', loc, xs)
  {
    Frame(s, s', loc, xs);
  }

  lemma {:induction false} FirstAndRest(xs: seq<int>, keyed: set<int>)
    ensures SomeKeyed(xs, keyed) <==> FirstOf(xs, keyed) != []
    ensures forall x :: x in FirstOf(xs, keyed) ==> x in xs && x in keyed
    ensures forall x :: x in DropFirst(xs, keyed) ==> x in xs
    ensures (forall i, j :: 0 <= i < j < |xs| ==> xs[i] != xs[j]) ==>
      (forall x :: x in DropFirst(xs, keyed) ==> x !in FirstOf(xs, keyed)) && NoRepeats(DropFirst(xs, keyed))
  {
    if xs != [] {
      FirstAndRest(xs[1..], keyed);
      assert forall x :: x in xs <==> x == xs[0] || x in xs[1..];
      if forall i, j :: 0 <= i < j < |xs| ==> xs[i] != xs[j] {
        assert forall i, j :: 0 <= i < j < |xs[1..]| ==> xs[1..][i] != xs[1..][j];
        assert xs[0] !in xs[1..];
        var t := DropFirst(xs[1..], keyed);
        if xs[0] !in keyed {
          assert DropFirst(xs, keyed) == [xs[0]] + t;
          assert forall i :: 0 < i <= |t| ==> DropFirst(xs, keyed)[i] == t[i - 1];
        }
      }
    }
  }

  ghost predicate NoRepeats(xs: seq<int>) {
    forall i, j :: 0 <= i < j < |xs| ==> xs[i] != xs[j]
  }

  /** scan_ephemerons walks once for every listed ephemeron whose key is live.  The second walk for a
      key ends just when the first one has left no other match in the bucket: two ephemerons that
      wait on one live key make it run for ever. */
  lemma SecondWalkEndsExactly(s: State, keyed: set<int>, bucket: seq<int>, q: seq<int>, n: nat)
    requires ListAt(s, s.loc, bucket) && QueueIs(s, q) && Separate(s, bucket, q) && 0 !in keyed
    requires !SomeKeyed(q, keyed) && SomeKeyed(bucket, keyed) && Entry(Run(s, keyed, n), Run(s, keyed, n).loc) == 0
    ensures Terminates(Run(s, keyed, n).(loc := s.loc), keyed) <==> !SomeKeyed(DropFirst(bucket, keyed), keyed)
  {
    hide Step, Run;
    WalkTakesFirst(s, keyed, bucket, q, n);
    FirstAndRest(bucket, keyed);
    var t := Run(s, keyed, n).(loc := s.loc);
    var rest, queue := DropFirst(bucket, keyed), FirstOf(bucket, keyed) + q;
    MovedList(Run(s, keyed, n), t, s.loc, rest);
    if queue != [] { MovedList(Run(s, keyed, n), t, queue[0], queue[1..]); }
    assert NoRepeats(rest);
    assert queue[0] in queue && queue[0] in keyed;
    WalkEndsExactly(t, keyed, rest, queue);
  }

  /** The bucket at location 100 holds the ephemerons 10 and 20, which wait on one key: the first walk
      takes 10 and ends, and the second never does. */
  lemma SecondWalkHangs()
    ensures var s := State(map[100 := 10, 10 := 20], 0, 100); var keyed := {10, 20};
      var once := Run(s, keyed, 1);
      Entry(once, once.loc) == 0 && !Terminates(once.(loc := 100), keyed)
  {
    var s, keyed := State(map[100 := 10, 10 := 20], 0, 100), {10, 20};
    assert Entry(s, 100) == 10 && Entry(s, 10) == 20 && Entry(s, 20) == 0;
    var once := Step(s, keyed);
    assert Run(s, keyed, 1) == Run(once, keyed, 0) == once;
    assert ListAt(s, 20, []) && [20][1..] == [] && ListAt(s, 10, [20]) && [10, 20][1..] == [20];
    assert ListAt(s, 100, [10, 20]) && QueueIs(s, []) && Separate(s, [10, 20], []);
    assert 10 in [10, 20] && DropFirst([10, 20], keyed) == [20] && 20 in [20];
    SecondWalkEndsExactly(s, keyed, [10, 20], [], 1);
  }

  lemma MovedList(s: State, t: State, loc: int, xs: seq<int>)
    requires ListAt(s, loc, xs) && t.next == s.next
    ensures ListAt(t, loc, xs)
  {
    Frame(s, t, loc, xs);
  }

  // ---------------------------------------------------------------- the walk in memory

  /** Where the link field of the ephemeron that a word refers to is in tospace, or 0. */
  function LinkField(h: Heap, w: Word): int {
    if w.Ptr? && w.code == TC_EPHEMERON then w.addr + EPHEMERON_NEXT - h.ns + h.ts else 0
  }

  /** The walk at entryLoc; an ephemeron is identified by the address of its link field. */
  ghost function Links(h: Heap, m: seq<Word>, queue: Word, entryLoc: int): State {
    State(map loc | 0 <= loc < |m| :: LinkField(h, m[loc]), LinkField(h, queue), entryLoc)
  }

  ghost predicate HasKey(m: seq<Word>, loc: int, addr: int) {
    var key := At(m, loc - EPHEMERON_NEXT + EPHEMERON_KEY);
    key.Ptr? && key.addr == addr
  }

  /** The ephemerons with the key at addr. */
  ghost function KeyedAt(m: seq<Word>, addr: int): set<int> {
    set loc | 0 <= loc < |m| && HasKey(m, loc, addr)
  }

  /** One step of the walk: an entry with the key is unlinked by the first write and put on the queue
      by the second; from any other entry the walk goes on. */
  lemma WalkStep(h: Heap, m: seq<Word>, queue: Word, entryLoc: int, addr: int)
    requires 0 <= entryLoc < |m| && 0 < LinkField(h, m[entryLoc]) < |m|
    ensures var nextLoc := LinkField(h, m[entryLoc]);
      Step(Links(h, m, queue, entryLoc), KeyedAt(m, addr)) ==
      if HasKey(m, nextLoc, addr) then Links(h, m[entryLoc := m[nextLoc]][nextLoc := queue], m[entryLoc], nextLoc)
        else Links(h, m, queue, nextLoc)
  {
    var nextLoc := LinkField(h, m[entryLoc]);
    assert nextLoc in KeyedAt(m, addr) <==> HasKey(m, nextLoc, addr);
  }
}
