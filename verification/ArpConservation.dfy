/** Over every run, packets that wait for ARP leave exactly once, in order, and not too late. */
module ArpConservation {
  import opened ArpQueue

  datatype Step =
    | Append(key: Key, pkt: Packet, now: int)
    | Insert(ip: Ip, mac: Mac, now: int, random: nat)
    | Sweep(now: int)

  /** The cache, with everything ever queued, everything that left, and every mapping ever learned. */
  datatype Sys = Sys(entries: seq<Entry>, reqs: seq<Req>,
                     queued: seq<(Key, Packet)>, gone: seq<Departure>, learned: set<(Ip, Mac)>)

  function Apply(s: Sys, step: Step): Sys
    requires |s.entries| > 0
  {
    match step
    case Append(key, pkt, now) =>
      s.(reqs := Appended(s.reqs, key, pkt, now), queued := s.queued + [(key, pkt)])
    case Insert(ip, mac, now, random) =>
      s.(entries := s.entries[Slot(s.entries, random) := Entry(ip, mac, now, true)],
         reqs := Remaining(Learned(ip, mac), s.reqs),
         gone := s.gone + Leaving(Learned(ip, mac), s.reqs),
         learned := s.learned + {(ip, mac)})
    case Sweep(now) =>
      s.(entries := seq(|s.entries|, i requires 0 <= i < |s.entries| => Expired(s.entries[i], now)),
         reqs := Remaining(Swept(now), s.reqs),
         gone := s.gone + Leaving(Swept(now), s.reqs))
  }

  ghost predicate Init(s: Sys) {
    && |s.entries| == MAX_ARP_SIZE && (forall i :: 0 <= i < |s.entries| ==> !s.entries[i].valid)
    && s.reqs == [] && s.queued == [] && s.gone == [] && s.learned == {}
  }

  // ---------- per key ----------

  ghost function QueuedFor(queued: seq<(Key, Packet)>, key: Key): seq<Packet> {
    if queued == [] then []
    else QueuedFor(queued[..|queued| - 1], key)
         + (if queued[|queued| - 1].0 == key then [queued[|queued| - 1].1] else [])
  }

  ghost function GoneFor(gone: seq<Departure>, key: Key): seq<Packet> {
    if gone == [] then []
    else GoneFor(gone[..|gone| - 1], key)
         + (if gone[|gone| - 1].key == key then [gone[|gone| - 1].pkt] else [])
  }

  /** The packets of all requests with this key; there is at most one. */
  ghost function WaitingFor(reqs: seq<Req>, key: Key): seq<Packet> {
    if reqs == [] then []
    else WaitingFor(reqs[..|reqs| - 1], key) + (if reqs[|reqs| - 1].key == key then reqs[|reqs| - 1].pkts else [])
  }

  ghost predicate GoodReqs(reqs: seq<Req>) {
    && (forall a, b :: 0 <= a < b < |reqs| ==> reqs[a].key != reqs[b].key)
    && (forall a :: 0 <= a < |reqs| ==> reqs[a].pkts != [] && 1 <= reqs[a].retries <= MAX_RETRIES)
  }

  /** What was queued under a key is what left under it followed by what still waits, in that order. */
  ghost predicate Conserved(s: Sys, key: Key) {
    QueuedFor(s.queued, key) == GoneFor(s.gone, key) + WaitingFor(s.reqs, key)
  }

  ghost predicate Inv(s: Sys) {
    && |s.entries| == MAX_ARP_SIZE
    && (forall i :: 0 <= i < |s.entries| && s.entries[i].valid ==> (s.entries[i].ip, s.entries[i].mac) in s.learned)
    && GoodReqs(s.reqs)
    && AllLearned(s.gone, s.learned)
    && (forall key :: Conserved(s, key))
  }

  /** A packet goes out only with a MAC learned for the address it waited for. */
  ghost predicate AllLearned(gone: seq<Departure>, learned: set<(Ip, Mac)>) {
    forall d :: d in gone && d.Transmitted? ==> (d.key.ip, d.mac) in learned
  }

  // ---------- appending ----------

  lemma {:induction false} WaitingCons(r: Req, rest: seq<Req>, key: Key)
    ensures WaitingFor([r] + rest, key) == (if r.key == key then r.pkts else []) + WaitingFor(rest, key)
  {
    var all := [r] + rest;
    if rest == [] {
      assert all == [r] && all[..0] == [];
    } else {
      var n := |rest| - 1;
      WaitingCons(r, rest[..n], key);
      assert all[..|all| - 1] == [r] + rest[..n];
    }
  }

  lemma {:induction false} WaitingNone(reqs: seq<Req>, key: Key)
    requires forall a :: 0 <= a < |reqs| ==> reqs[a].key != key
    ensures WaitingFor(reqs, key) == []
  {
    if reqs != [] {
      WaitingNone(reqs[..|reqs| - 1], key);
    }
  }

  lemma AppendedToHead(reqs: seq<Req>, pkt: Packet, k: Key)
    requires GoodReqs(reqs) && reqs != []
    ensures var r := reqs[0];
      WaitingFor([r.(pkts := r.pkts + [pkt])] + reqs[1..], k)
      == WaitingFor([r] + reqs[1..], k) + (if k == r.key then [pkt] else [])
  {
    var r := reqs[0];
    WaitingCons(r, reqs[1..], k);
    WaitingCons(r.(pkts := r.pkts + [pkt]), reqs[1..], k);
    if k == r.key {
      WaitingNone(reqs[1..], k);
    }
  }

  lemma {:induction false} AppendedWaits(reqs: seq<Req>, key: Key, pkt: Packet, now: int, k: Key)
    requires GoodReqs(reqs)
    ensures WaitingFor(Appended(reqs, key, pkt, now), k) == WaitingFor(reqs, k) + (if k == key then [pkt] else [])
  {
    if reqs == [] {
      WaitingCons(Req(key, now, 1, [pkt]), [], k);
      assert [Req(key, now, 1, [pkt])] + [] == [Req(key, now, 1, [pkt])];
    } else {
      assert reqs == [reqs[0]] + reqs[1..];
      if reqs[0].key == key {
        AppendedToHead(reqs, pkt, k);
      } else {
        AppendedWaits(reqs[1..], key, pkt, now, k);
        WaitingCons(reqs[0], reqs[1..], k);
        WaitingCons(reqs[0], Appended(reqs[1..], key, pkt, now), k);
        var head, last := if reqs[0].key == k then reqs[0].pkts else [], if k == key then [pkt] else [];
        Regroup(head, WaitingFor(reqs[1..], k), last);
      }
    }
  }

  lemma {:induction false} AppendedKeys(reqs: seq<Req>, key: Key, pkt: Packet, now: int)
    requires GoodReqs(reqs)
    ensures GoodReqs(Appended(reqs, key, pkt, now))
    ensures forall r :: r in Appended(reqs, key, pkt, now) ==> r.key == key || r in reqs
  {
    if reqs != [] && reqs[0].key != key {
      AppendedKeys(reqs[1..], key, pkt, now);
      var rest := Appended(reqs[1..], key, pkt, now);
      forall b | 0 <= b < |rest| ensures rest[b].key != reqs[0].key {
        assert rest[b] in rest;
      }
    }
  }

  // ---------- releasing ----------

  lemma {:induction false} GoneAppend(a: seq<Departure>, b: seq<Departure>, key: Key)
    ensures GoneFor(a + b, key) == GoneFor(a, key) + GoneFor(b, key)
  {
    if b == [] {
      assert a + b == a;
    } else {
      var n := |b| - 1;
      GoneAppend(a, b[..n], key);
      assert (a + b)[..|a + b| - 1] == a + b[..n];
    }
  }

  lemma {:induction false} DeparturesGone(c: Cause, r: Req, key: Key)
    ensures GoneFor(Departures(c, r), key) == if r.key == key then r.pkts else []
    decreases |r.pkts|
  {
    if r.pkts != [] {
      var n := |r.pkts| - 1;
      var init := r.(pkts := r.pkts[..n]);
      DeparturesGone(c, init, key);
      assert Departures(c, r)[..n] == Departures(c, init);
      assert r.pkts == r.pkts[..n] + [r.pkts[n]];
    }
  }

  ghost predicate Splits(c: Cause, reqs: seq<Req>, key: Key) {
    GoneFor(Leaving(c, reqs), key) + WaitingFor(Remaining(c, reqs), key) == WaitingFor(reqs, key)
  }

  lemma WaitingLast(reqs: seq<Req>, r: Req, key: Key)
    ensures WaitingFor(reqs + [r], key) == WaitingFor(reqs, key) + (if r.key == key then r.pkts else [])
  {
    assert (reqs + [r])[..|reqs|] == reqs;
  }

  lemma LeavingLast(c: Cause, init: seq<Req>, last: Req, key: Key)
    requires Goes(c, last)
    ensures Remaining(c, init + [last]) == Remaining(c, init)
    ensures GoneFor(Leaving(c, init + [last]), key)
      == GoneFor(Leaving(c, init), key) + (if last.key == key then last.pkts else [])
  {
    assert (init + [last])[..|init|] == init;
    GoneAppend(Leaving(c, init), Departures(c, last), key);
    DeparturesGone(c, last, key);
  }

  lemma SplitGoing(c: Cause, init: seq<Req>, last: Req, key: Key)
    requires Goes(c, last) && Splits(c, init, key) && (last.key == key ==> WaitingFor(init, key) == [])
    ensures Splits(c, init + [last], key)
  {
    LeavingLast(c, init, last, key);
    WaitingLast(init, last, key);
    var g, w := GoneFor(Leaving(c, init), key), WaitingFor(Remaining(c, init), key);
    if last.key == key {
      assert |g + w| == 0;
      assert g == [] && w == [];
    } else {
      assert g + [] == g;
      assert (g + w) + [] == g + w;
    }
  }

  lemma StayingLast(c: Cause, init: seq<Req>, last: Req)
    requires !Goes(c, last)
    ensures Leaving(c, init + [last]) == Leaving(c, init)
    ensures Remaining(c, init + [last]) == Remaining(c, init) + [Stays(c, last)]
  {
    assert (init + [last])[..|init|] == init;
    assert Leaving(c, init) + [] == Leaving(c, init);
  }

  lemma SplitStaying(c: Cause, init: seq<Req>, last: Req, key: Key)
    requires !Goes(c, last) && Splits(c, init, key)
    ensures Splits(c, init + [last], key)
  {
    StayingLast(c, init, last);
    WaitingLast(init, last, key);
    WaitingLast(Remaining(c, init), Stays(c, last), key);
    var more := if last.key == key then last.pkts else [];
    Regroup(GoneFor(Leaving(c, init), key), WaitingFor(Remaining(c, init), key), more);
  }

  lemma Regroup(a: seq<Packet>, b: seq<Packet>, c: seq<Packet>)
    ensures a + (b + c) == (a + b) + c
  {
  }

  /** What leaves under a key and what remains are together, in this order, what waited. */
  lemma {:induction false} ReleaseSplits(c: Cause, reqs: seq<Req>, key: Key)
    requires GoodReqs(reqs)
    ensures Splits(c, reqs, key)
  {
    if reqs != [] {
      var n := |reqs| - 1;
      ReleaseSplits(c, reqs[..n], key);
      assert reqs == reqs[..n] + [reqs[n]];
      if Goes(c, reqs[n]) {
        if reqs[n].key == key {
          WaitingNone(reqs[..n], key);
        }
        SplitGoing(c, reqs[..n], reqs[n], key);
      } else {
        SplitStaying(c, reqs[..n], reqs[n], key);
      }
    }
  }

  ghost predicate CameFrom(c: Cause, reqs: seq<Req>, r: Req) {
    exists q :: q in reqs && !Goes(c, q) && r == Stays(c, q)
  }

  lemma {:induction false} RemainingFrom(c: Cause, reqs: seq<Req>)
    ensures forall r :: r in Remaining(c, reqs) ==> CameFrom(c, reqs, r)
  {
    if reqs != [] {
      var n := |reqs| - 1;
      RemainingFrom(c, reqs[..n]);
      forall r | r in Remaining(c, reqs) ensures CameFrom(c, reqs, r) {
        if r in Remaining(c, reqs[..n]) {
          var q :| q in reqs[..n] && !Goes(c, q) && r == Stays(c, q);
          assert q in reqs;
        } else {
          assert reqs[n] in reqs;
        }
      }
    }
  }

  lemma {:induction false} RemainingGood(c: Cause, reqs: seq<Req>)
    requires GoodReqs(reqs)
    ensures GoodReqs(Remaining(c, reqs))
  {
    if reqs != [] {
      var n := |reqs| - 1;
      RemainingGood(c, reqs[..n]);
      RemainingFrom(c, reqs[..n]);
      var rest := Remaining(c, reqs[..n]);
      forall a | 0 <= a < |rest| ensures rest[a].key != reqs[n].key {
        assert rest[a] in rest;
        var q :| q in reqs[..n] && !Goes(c, q) && rest[a] == Stays(c, q);
      }
    }
  }

  lemma ReleaseConserves(s: Sys, c: Cause, s': Sys, key: Key)
    requires GoodReqs(s.reqs) && Conserved(s, key)
    requires s'.queued == s.queued && s'.reqs == Remaining(c, s.reqs) && s'.gone == s.gone + Leaving(c, s.reqs)
    ensures Conserved(s', key)
  {
    GoneAppend(s.gone, Leaving(c, s.reqs), key);
    ReleaseSplits(c, s.reqs, key);
  }

  lemma {:induction false} LeavingLearned(c: Cause, reqs: seq<Req>)
    ensures AllLearned(Leaving(c, reqs), if c.Learned? then {(c.ip, c.mac)} else {})
  {
    if reqs != [] {
      LeavingLearned(c, reqs[..|reqs| - 1]);
    }
  }

  lemma AppendConserves(s: Sys, key: Key, pkt: Packet, now: int, k: Key)
    requires |s.entries| > 0 && GoodReqs(s.reqs) && Conserved(s, k)
    ensures Conserved(Apply(s, Append(key, pkt, now)), k)
  {
    AppendedWaits(s.reqs, key, pkt, now, k);
    var all := s.queued + [(key, pkt)];
    assert all[..|all| - 1] == s.queued;
  }

  lemma StepKeepsInv(s: Sys, step: Step)
    requires Inv(s)
    ensures Inv(Apply(s, step))
  {
    var s' := Apply(s, step);
    match step
    case Append(key, pkt, now) =>
      AppendedKeys(s.reqs, key, pkt, now);
      forall k ensures Conserved(s', k) {
        assert Conserved(s, k);
        AppendConserves(s, key, pkt, now, k);
      }
    case Insert(ip, mac, _, _) =>
      RemainingGood(Learned(ip, mac), s.reqs);
      LeavingLearned(Learned(ip, mac), s.reqs);
      forall k ensures Conserved(s', k) {
        assert Conserved(s, k);
        ReleaseConserves(s, Learned(ip, mac), s', k);
      }
    case Sweep(now) =>
      RemainingGood(Swept(now), s.reqs);
      LeavingLearned(Swept(now), s.reqs);
      forall k ensures Conserved(s', k) {
        assert Conserved(s, k);
        ReleaseConserves(s, Swept(now), s', k);
      }
  }

  ghost predicate Run(s: Sys, steps: seq<Step>, s': Sys)
    requires |s.entries| > 0
    decreases |steps|
  {
    if steps == [] then s' == s
    else |Apply(s, steps[0]).entries| > 0 && Run(Apply(s, steps[0]), steps[1..], s')
  }

  lemma {:induction false} RunKeepsInv(s: Sys, steps: seq<Step>, s': Sys)
    requires Inv(s) && Run(s, steps, s')
    ensures Inv(s')
    decreases |steps|
  {
    if steps != [] {
      StepKeepsInv(s, steps[0]);
      RunKeepsInv(Apply(s, steps[0]), steps[1..], s');
    }
  }

  /**
   In every state of every run: no two requests share interface and address, none is empty, a
   packet leaves exactly once and in the order of arrival under its key, and the MAC that it
   leaves with, or that a lookup finds, was learned for that IP.
   */
  lemma PacketsAreConserved(s0: Sys, steps: seq<Step>, s: Sys, key: Key, ip: Ip, k: int)
    requires Init(s0) && Run(s0, steps, s)
    ensures GoodReqs(s.reqs)
    ensures QueuedFor(s.queued, key) == GoneFor(s.gone, key) + WaitingFor(s.reqs, key)
    ensures FoundAt(s.entries, ip, k) ==> (ip, s.entries[k].mac) in s.learned
    ensures forall d :: d in s.gone && d.Transmitted? ==> (d.key.ip, d.mac) in s.learned
  {
    assert forall key :: Conserved(s0, key);
    RunKeepsInv(s0, steps, s);
    assert Conserved(s, key);
  }

  // ---------- an answer releases what waits for it ----------

  lemma {:induction false} GoneNone(gone: seq<Departure>, key: Key)
    requires forall d :: d in gone ==> d.key != key
    ensures GoneFor(gone, key) == []
  {
    if gone != [] {
      assert gone[|gone| - 1] in gone;
      GoneNone(gone[..|gone| - 1], key);
    }
  }

  /** The end of a sequence is what it is without its common front. */
  lemma SameFront(a: seq<Packet>, b: seq<Packet>, c: seq<Packet>)
    requires a + b == a + c
    ensures b == c
  {
    assert b == (a + b)[|a|..] && c == (a + c)[|a|..];
  }

  lemma AnsweredKey(s: Sys, c: Cause, s': Sys, key: Key)
    requires c.Learned? && key.ip == c.ip && Conserved(s', key) && s'.reqs == Remaining(c, s.reqs)
    ensures WaitingFor(s'.reqs, key) == [] && GoneFor(s'.gone, key) == QueuedFor(s'.queued, key)
  {
    AnsweredRequests(c.ip, c.mac, s.reqs);
    forall a | 0 <= a < |s'.reqs| ensures s'.reqs[a].key != key {
      assert s'.reqs[a] in s'.reqs;
    }
    WaitingNone(s'.reqs, key);
  }

  lemma OtherKey(s: Sys, c: Cause, s': Sys, key: Key)
    requires c.Learned? && key.ip != c.ip && Conserved(s, key) && Conserved(s', key)
    requires s'.queued == s.queued && s'.gone == s.gone + Leaving(c, s.reqs)
    ensures WaitingFor(s'.reqs, key) == WaitingFor(s.reqs, key) && GoneFor(s'.gone, key) == GoneFor(s.gone, key)
  {
    var out := Leaving(c, s.reqs);
    AnsweredRequests(c.ip, c.mac, s.reqs);
    GoneNone(out, key);
    GoneAppend(s.gone, out, key);
    assert GoneFor(s.gone, key) + [] == GoneFor(s.gone, key);
    SameFront(GoneFor(s.gone, key), WaitingFor(s.reqs, key), WaitingFor(s'.reqs, key));
  }

  /**
   In every state that Inv describes, so in every state of every run: an answer for `ip` sends off
   everything ever queued for it, in order, what was still waiting with the MAC of the answer;
   what waits for other addresses goes on waiting.
   */
  lemma AnswerReleases(s: Sys, ip: Ip, mac: Mac, now: int, random: nat, key: Key)
    requires Inv(s)
    ensures var s' := Apply(s, Insert(ip, mac, now, random));
      && s'.gone == s.gone + Leaving(Learned(ip, mac), s.reqs)
      && (forall d :: d in Leaving(Learned(ip, mac), s.reqs) ==> d.Transmitted? && d.mac == mac && d.key.ip == ip)
      && (key.ip == ip ==> WaitingFor(s'.reqs, key) == [] && GoneFor(s'.gone, key) == QueuedFor(s'.queued, key))
      && (key.ip != ip ==>
            WaitingFor(s'.reqs, key) == WaitingFor(s.reqs, key) && GoneFor(s'.gone, key) == GoneFor(s.gone, key))
  {
    var step, c := Insert(ip, mac, now, random), Learned(ip, mac);
    var s' := Apply(s, step);
    StepKeepsInv(s, step);
    assert Conserved(s, key) && Conserved(s', key);
    AnsweredRequests(ip, mac, s.reqs);
    if key.ip == ip {
      AnsweredKey(s, c, s', key);
    } else {
      OtherKey(s, c, s', key);
    }
  }

  // ---------- no packet waits for ever ----------

  ghost predicate HasReq(reqs: seq<Req>, key: Key, retries: int, sent: int) {
    exists a :: 0 <= a < |reqs| && reqs[a].key == key && retries <= reqs[a].retries && reqs[a].sent <= sent
  }

  /** Everything queued under the key up to `n` packets has left, or its request has been retried often enough. */
  ghost predicate Progress(s: Sys, key: Key, n: nat, retries: int, sent: int) {
    n <= |GoneFor(s.gone, key)| || HasReq(s.reqs, key, retries, sent)
  }

  lemma {:induction false} RemainingHas(c: Cause, reqs: seq<Req>, a: nat)
    requires a < |reqs| && !Goes(c, reqs[a])
    ensures Stays(c, reqs[a]) in Remaining(c, reqs)
  {
    var n := |reqs| - 1;
    if a < n {
      RemainingHas(c, reqs[..n], a);
    }
  }

  lemma {:induction false} RemainingLacks(c: Cause, reqs: seq<Req>, a: nat)
    requires GoodReqs(reqs) && a < |reqs| && Goes(c, reqs[a])
    ensures WaitingFor(Remaining(c, reqs), reqs[a].key) == []
  {
    RemainingFrom(c, reqs);
    var rest := Remaining(c, reqs);
    forall b | 0 <= b < |rest| ensures rest[b].key != reqs[a].key {
      assert rest[b] in rest;
      var q :| q in reqs && !Goes(c, q) && rest[b] == Stays(c, q);
      var d :| 0 <= d < |reqs| && reqs[d] == q;
      assert d != a;
    }
    WaitingNone(rest, reqs[a].key);
  }

  lemma GoneGrows(s: Sys, step: Step, key: Key)
    requires Inv(s)
    ensures |GoneFor(s.gone, key)| <= |GoneFor(Apply(s, step).gone, key)|
    ensures |QueuedFor(s.queued, key)| <= |QueuedFor(Apply(s, step).queued, key)|
  {
    match step
    case Append(k, pkt, _) =>
      var all := s.queued + [(k, pkt)];
      assert all[..|all| - 1] == s.queued;
    case Insert(ip, mac, _, _) => GoneAppend(s.gone, Leaving(Learned(ip, mac), s.reqs), key);
    case Sweep(now) => GoneAppend(s.gone, Leaving(Swept(now), s.reqs), key);
  }

  /** Releasing a request means that everything queued under its key has left. */
  lemma ReleasedAll(s: Sys, c: Cause, s': Sys, a: nat)
    requires Inv(s) && Inv(s') && a < |s.reqs| && Goes(c, s.reqs[a])
    requires s'.queued == s.queued && s'.reqs == Remaining(c, s.reqs)
    ensures |GoneFor(s'.gone, s.reqs[a].key)| == |QueuedFor(s.queued, s.reqs[a].key)|
  {
    RemainingLacks(c, s.reqs, a);
    assert Conserved(s', s.reqs[a].key);
  }

  lemma {:induction false} AppendedHas(reqs: seq<Req>, key: Key, pkt: Packet, now: int, a: nat) returns (r: Req)
    requires a < |reqs|
    ensures r in Appended(reqs, key, pkt, now)
    ensures r.key == reqs[a].key && r.retries == reqs[a].retries && r.sent == reqs[a].sent
  {
    if reqs[0].key == key {
      r := Appended(reqs, key, pkt, now)[a];
    } else if a == 0 {
      r := reqs[0];
    } else {
      r := AppendedHas(reqs[1..], key, pkt, now, a - 1);
    }
  }

  /** A step that is no sweep, or a sweep a second later, keeps up the progress. */
  lemma StepProgress(s: Sys, step: Step, key: Key, n: nat, retries: int, sent: int)
    requires Inv(s) && n <= |QueuedFor(s.queued, key)| && Progress(s, key, n, retries, sent)
    requires step.Sweep? ==> step.now >= sent + 1
    ensures if step.Sweep? then Progress(Apply(s, step), key, n, retries + 1, step.now)
            else Progress(Apply(s, step), key, n, retries, sent)
  {
    var s' := Apply(s, step);
    StepKeepsInv(s, step);
    GoneGrows(s, step, key);
    if |GoneFor(s.gone, key)| < n {
      var a :| 0 <= a < |s.reqs| && s.reqs[a].key == key && retries <= s.reqs[a].retries && s.reqs[a].sent <= sent;
      match step
      case Append(k, pkt, now) =>
        var r := AppendedHas(s.reqs, k, pkt, now, a);
        var b :| 0 <= b < |s'.reqs| && s'.reqs[b] == r;
      case Insert(ip, mac, _, _) =>
        ReleaseProgress(s, Learned(ip, mac), s', a, n);
      case Sweep(now) =>
        ReleaseProgress(s, Swept(now), s', a, n);
    }
  }

  lemma ReleaseProgress(s: Sys, c: Cause, s': Sys, a: nat, n: nat)
    requires Inv(s) && Inv(s') && a < |s.reqs| && n <= |QueuedFor(s.queued, s.reqs[a].key)|
    requires s'.queued == s.queued && s'.reqs == Remaining(c, s.reqs)
    ensures n <= |GoneFor(s'.gone, s.reqs[a].key)| ||
      (!Goes(c, s.reqs[a]) && exists b :: 0 <= b < |s'.reqs| && s'.reqs[b] == Stays(c, s.reqs[a]))
  {
    if Goes(c, s.reqs[a]) {
      ReleasedAll(s, c, s', a);
    } else {
      RemainingHas(c, s.reqs, a);
    }
  }

  ghost function Sweeps(steps: seq<Step>): nat {
    if steps == [] then 0 else (if steps[0].Sweep? then 1 else 0) + Sweeps(steps[1..])
  }

  /** The sweeps are at least a second apart, and the first at least a second after `t`. */
  ghost predicate Spaced(steps: seq<Step>, t: int) {
    if steps == [] then true
    else if steps[0].Sweep? then steps[0].now >= t + 1 && Spaced(steps[1..], steps[0].now)
    else Spaced(steps[1..], t)
  }

  lemma {:induction false} RunProgress(s: Sys, steps: seq<Step>, s': Sys, key: Key, n: nat, retries: int, sent: int)
    requires Inv(s) && Run(s, steps, s') && Spaced(steps, sent)
    requires n <= |QueuedFor(s.queued, key)| && Progress(s, key, n, retries, sent)
    ensures Inv(s') && (n <= |GoneFor(s'.gone, key)| || retries + Sweeps(steps) <= MAX_RETRIES)
    decreases |steps|
  {
    if steps != [] {
      var next := Apply(s, steps[0]);
      StepKeepsInv(s, steps[0]);
      StepProgress(s, steps[0], key, n, retries, sent);
      GoneGrows(s, steps[0], key);
      if steps[0].Sweep? {
        RunProgress(next, steps[1..], s', key, n, retries + 1, steps[0].now);
      } else {
        RunProgress(next, steps[1..], s', key, n, retries, sent);
      }
    }
  }

  /** Whatever else happens, after five sweeps a second apart every packet queued before them has left. */
  lemma FiveSweepsSuffice(s: Sys, steps: seq<Step>, s': Sys, key: Key, t: int)
    requires Inv(s) && Run(s, steps, s') && Spaced(steps, t) && 5 <= Sweeps(steps)
    requires forall a :: 0 <= a < |s.reqs| ==> s.reqs[a].sent <= t
    ensures |QueuedFor(s.queued, key)| <= |GoneFor(s'.gone, key)|
  {
    var n := |QueuedFor(s.queued, key)|;
    assert Conserved(s, key);
    if |GoneFor(s.gone, key)| < n {
      if forall a :: 0 <= a < |s.reqs| ==> s.reqs[a].key != key {
        WaitingNone(s.reqs, key);
      }
    }
    RunProgress(s, steps, s', key, n, 1, t);
  }
}
