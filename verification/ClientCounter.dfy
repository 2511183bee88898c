/** The client's timestamp-floored counter and how it meets the server's replay check. */
module ClientCounter {
  import opened Bytes

  datatype Stored = Missing | Value(n: nat) | NotANumber | Unreadable

  class CounterFile {
    var contents: Stored

    constructor (contents: Stored)
      ensures this.contents == contents
    {
      this.contents := contents;
    }
  }

  /** The next counter: one more than the stored one, saturating, but never below the clock. */
  function Bump(current: nat, floor: nat): (next: nat) {
    Max(Min(current + 1, U64_MAX), floor)
  }

  /** `next_counter`. A failed write leaves whatever the file system left. */
  method NextCounter(file: CounterFile, floor: nat, writeFails: Option<Stored>) returns (r: Option<nat>)
    requires floor <= U64_MAX && (file.contents.Value? ==> file.contents.n <= U64_MAX)
    modifies file
    ensures r.Some? ==>
              && (old(file.contents).Missing? || old(file.contents).Value?)
              && r.value == Bump(if old(file.contents).Value? then old(file.contents).n else 0, floor)
              && file.contents == Value(r.value)
              && floor <= r.value <= U64_MAX
    ensures r == None <==> writeFails.Some? || old(file.contents) in {NotANumber, Unreadable}
    ensures old(file.contents) in {NotANumber, Unreadable} ==> file.contents == old(file.contents)
  {
    var current := 0;
    match file.contents {
      case Value(n) => current := n;
      case Missing =>
      case _ => return None;
    }
    var saturated := if current == U64_MAX then U64_MAX else current + 1;
    var next := if saturated < floor then floor else saturated;
    if writeFails.Some? {
      file.contents := writeFails.value;
      return None;
    }
    file.contents := Value(next);
    return Some(next);
  }

  // ---- sequences of sends ------------------------------------------------------

  ghost predicate Clock(floors: seq<nat>) {
    forall i :: 0 <= i < |floors| ==> floors[i] <= U64_MAX
  }

  /** The stored counter after sends at these floors, none of them losing the file. */
  function After(c0: nat, floors: seq<nat>): (c: nat) {
    if floors == [] then c0 else Bump(After(c0, floors[..|floors| - 1]), floors[|floors| - 1])
  }

  /** The counters issued, in order. */
  function Issued(c0: nat, floors: seq<nat>): (cs: seq<nat>)
    ensures |cs| == |floors|
  {
    if floors == [] then [] else Issued(c0, floors[..|floors| - 1]) + [After(c0, floors)]
  }

  /** v is the largest of c0 + n and each floor plus the number of sends after it. */
  ghost predicate IsPeak(c0: nat, floors: seq<nat>, v: nat) {
    var n := |floors|;
    && v >= c0 + n
    && (forall i :: 0 <= i < n ==> v >= floors[i] + (n - 1 - i))
    && (v == c0 + n || exists i :: 0 <= i < n && v == floors[i] + (n - 1 - i))
  }

  lemma {:induction false} PeakExists(c0: nat, floors: seq<nat>) returns (v: nat)
    requires c0 <= U64_MAX && Clock(floors)
    ensures IsPeak(c0, floors, v) && After(c0, floors) == Min(U64_MAX, v)
  {
    var n := |floors|;
    if n == 0 {
      v := c0;
    } else {
      var init := floors[..n - 1];
      var u := PeakExists(c0, init);
      v := Max(u + 1, floors[n - 1]);
      forall i | 0 <= i < n
        ensures v >= floors[i] + (n - 1 - i)
      {
        if i < n - 1 {
          assert u >= init[i] + (n - 2 - i);
        }
      }
      if v == u + 1 && u != c0 + (n - 1) {
        var i :| 0 <= i < n - 1 && u == init[i] + (n - 2 - i);
        assert v == floors[i] + (n - 1 - i);
      } else if v != u + 1 {
        assert v == floors[n - 1] + (n - 1 - (n - 1));
      }
    }
  }

  /** The counter after n sends is min(u64::MAX, max(c0 + n, max over i of f_i + (n - i))). */
  lemma ClosedForm(c0: nat, floors: seq<nat>, v: nat)
    requires c0 <= U64_MAX && Clock(floors) && IsPeak(c0, floors, v)
    ensures After(c0, floors) == Min(U64_MAX, v)
  {
    var u := PeakExists(c0, floors);
    assert u == v;
  }

  ghost predicate Increasing(cs: seq<nat>) {
    forall i, j :: 0 <= i < j < |cs| ==> cs[i] < cs[j]
  }

  /** The server's replay check on packets arriving in this order, from high-water mark h. */
  predicate AllPass(h: nat, arrivals: seq<nat>)
    decreases |arrivals|
  {
    arrivals == [] || (arrivals[0] > h && AllPass(arrivals[0], arrivals[1..]))
  }

  lemma {:induction false} PassIffIncreasing(h: nat, arrivals: seq<nat>)
    ensures AllPass(h, arrivals) <==> Increasing([h] + arrivals)
    decreases |arrivals|
  {
    var all := [h] + arrivals;
    if arrivals != [] {
      PassIffIncreasing(arrivals[0], arrivals[1..]);
      assert [arrivals[0]] + arrivals[1..] == arrivals;
      assert all[0] == h && all[1] == arrivals[0];
      if AllPass(h, arrivals) {
        forall i, j | 0 <= i < j < |all|
          ensures all[i] < all[j]
        {
          if i == 0 && j > 1 {
            assert arrivals[0] < arrivals[j - 1];
          } else if i > 0 {
            assert all[i] == arrivals[i - 1] && all[j] == arrivals[j - 1];
          }
        }
      }
      if Increasing(all) {
        forall i, j | 0 <= i < j < |arrivals|
          ensures arrivals[i] < arrivals[j]
        {
          assert all[i + 1] < all[j + 1];
        }
      }
    }
  }

  lemma {:induction false} IssuedIndex(c0: nat, floors: seq<nat>, i: nat)
    requires i < |floors|
    ensures Issued(c0, floors)[i] == After(c0, floors[..i + 1])
  {
    var n := |floors|;
    if i == n - 1 {
      assert floors[..n] == floors;
    } else {
      IssuedIndex(c0, floors[..n - 1], i);
      assert floors[..n - 1][..i + 1] == floors[..i + 1];
    }
  }

  /** Counters do not go down from send to send. */
  lemma {:induction false} AfterGrows(c0: nat, floors: seq<nat>, i: nat)
    requires c0 <= U64_MAX && Clock(floors) && i <= |floors|
    ensures After(c0, floors[..i]) <= After(c0, floors) <= U64_MAX
    ensures i < |floors| && After(c0, floors[..|floors| - 1]) < U64_MAX ==> After(c0, floors[..i]) < After(c0, floors)
  {
    var n := |floors|;
    if i == n {
      assert floors[..n] == floors;
      if n > 0 {
        AfterGrows(c0, floors[..n - 1], n - 1);
      }
    } else {
      assert floors[..n - 1][..i] == floors[..i];
      AfterGrows(c0, floors[..n - 1], i);
    }
  }

  /** The stored counter followed by the issued ones, by position. */
  lemma StoredThenIssued(c0: nat, floors: seq<nat>, i: nat)
    requires i <= |floors|
    ensures ([c0] + Issued(c0, floors))[i] == After(c0, floors[..i])
  {
    if i > 0 {
      IssuedIndex(c0, floors, i - 1);
    }
  }

  /** Below u64::MAX, later is larger. */
  lemma LaterIsLarger(c0: nat, floors: seq<nat>, i: nat, j: nat)
    requires c0 <= U64_MAX && Clock(floors) && i < j <= |floors|
    requires After(c0, floors[..|floors| - 1]) < U64_MAX
    ensures After(c0, floors[..i]) < After(c0, floors[..j])
  {
    var n, upTo := |floors|, floors[..j];
    AfterGrows(c0, floors[..n - 1], j - 1);
    assert floors[..n - 1][..j - 1] == floors[..j - 1] == upTo[..j - 1];
    AfterGrows(c0, upTo, i);
    assert upTo[..i] == floors[..i];
  }

  /** The stored counter and the issued ones all differ exactly when the counter had not
      reached u64::MAX before the last send. */
  lemma IssuedIncreasing(c0: nat, floors: seq<nat>)
    requires c0 <= U64_MAX && Clock(floors)
    ensures Increasing([c0] + Issued(c0, floors))
            <==> (floors == [] || After(c0, floors[..|floors| - 1]) < U64_MAX)
  {
    var n := |floors|;
    var all := [c0] + Issued(c0, floors);
    if n > 0 {
      if After(c0, floors[..n - 1]) < U64_MAX {
        forall i, j | 0 <= i < j <= n
          ensures all[i] < all[j]
        {
          StoredThenIssued(c0, floors, i);
          StoredThenIssued(c0, floors, j);
          LaterIsLarger(c0, floors, i, j);
        }
      } else {
        StoredThenIssued(c0, floors, n - 1);
        StoredThenIssued(c0, floors, n);
        assert floors[..n] == floors;
        AfterGrows(c0, floors, n);
        assert all[n - 1] >= all[n];
      }
    }
  }

  /** Packets that arrive at all arrive in issue order: the chosen positions go up. */
  ghost predicate Positions(which: seq<nat>, n: nat) {
    Increasing(which) && forall k :: 0 <= k < |which| ==> which[k] < n
  }

  function Select(cs: seq<nat>, which: seq<nat>): (out: seq<nat>)
    requires forall k :: 0 <= k < |which| ==> which[k] < |cs|
  {
    seq(|which|, k requires 0 <= k < |which| => cs[which[k]])
  }

  /** Below u64::MAX, whichever of one client's packets arrive, in issue order they all pass
      a server that has seen none of them. */
  lemma AnySubsequencePasses(c0: nat, floors: seq<nat>, which: seq<nat>, h: nat)
    requires c0 <= U64_MAX && Clock(floors) && Positions(which, |floors|) && h <= c0
    requires floors == [] || After(c0, floors[..|floors| - 1]) < U64_MAX
    ensures AllPass(h, Select(Issued(c0, floors), which))
  {
    var cs := Issued(c0, floors);
    IssuedIncreasing(c0, floors);
    var all, got := [c0] + cs, Select(cs, which);
    forall i, j | 0 <= i < j < |[h] + got|
      ensures ([h] + got)[i] < ([h] + got)[j]
    {
      var b := which[j - 1];
      assert got[j - 1] == cs[b] == all[b + 1];
      if i == 0 {
        assert all[0] < all[b + 1];
      } else {
        var a := which[i - 1];
        assert got[i - 1] == cs[a] == all[a + 1];
        assert a < b;
      }
    }
    PassIffIncreasing(h, got);
  }

  // ---- losing the counter file ------------------------------------------------------

  /** As After, but before send i the file is replaced where back[i] says so: by nothing, which
      reads as 0, when it is lost, or by an older value when it is restored from a backup. */
  function AfterLossy(c0: nat, floors: seq<nat>, back: seq<Option<nat>>): (c: nat)
    requires |back| == |floors|
  {
    var n := |floors|;
    if n == 0 then c0
    else
      var stored := if back[n - 1].Some? then back[n - 1].value else AfterLossy(c0, floors[..n - 1], back[..n - 1]);
      Bump(stored, floors[n - 1])
  }

  function IssuedLossy(c0: nat, floors: seq<nat>, back: seq<Option<nat>>): (cs: seq<nat>)
    requires |back| == |floors|
    ensures |cs| == |floors|
  {
    var n := |floors|;
    if n == 0 then [] else IssuedLossy(c0, floors[..n - 1], back[..n - 1]) + [AfterLossy(c0, floors, back)]
  }

  /** Nothing newer is put back than what a client without losses would have stored by then. */
  ghost predicate Older(c0: nat, floors: seq<nat>, back: seq<Option<nat>>) {
    && |back| == |floors|
    && forall i :: 0 <= i < |back| && back[i].Some? ==> back[i].value <= After(c0, floors[..i])
  }

  /** Each clock reading passes every counter a lossless client would have issued before it. */
  ghost predicate ClockLeads(c0: nat, floors: seq<nat>) {
    forall i :: 0 < i < |floors| ==> floors[i] > After(c0, floors[..i])
  }

  lemma OlderInit(c0: nat, floors: seq<nat>, back: seq<Option<nat>>)
    requires floors != [] && Older(c0, floors, back)
    ensures Older(c0, floors[..|floors| - 1], back[..|back| - 1])
  {
    var init := floors[..|floors| - 1];
    assert forall i :: 0 <= i < |init| ==> init[..i] == floors[..i];
  }

  /** So everything the file ever holds may be put back. */
  lemma {:induction false} LossOnlyLowers(c0: nat, floors: seq<nat>, back: seq<Option<nat>>)
    requires Older(c0, floors, back)
    ensures AfterLossy(c0, floors, back) <= After(c0, floors)
  {
    if floors != [] {
      OlderInit(c0, floors, back);
      LossOnlyLowers(c0, floors[..|floors| - 1], back[..|back| - 1]);
    }
  }

  lemma LeadsInit(c0: nat, floors: seq<nat>)
    requires floors != [] && ClockLeads(c0, floors)
    ensures ClockLeads(c0, floors[..|floors| - 1])
  {
    var init := floors[..|floors| - 1];
    assert forall i :: 0 <= i < |init| ==> init[..i] == floors[..i];
  }

  lemma OneMore(cs: seq<nat>, c: nat, next: nat)
    requires Increasing(cs) && (forall i :: 0 <= i < |cs| ==> cs[i] <= c) && (cs != [] ==> c < next)
    ensures Increasing(cs + [next]) && forall i :: 0 <= i <= |cs| ==> (cs + [next])[i] <= next
  {
  }

  lemma {:induction false} LossySurvives(c0: nat, floors: seq<nat>, back: seq<Option<nat>>)
    requires Older(c0, floors, back) && ClockLeads(c0, floors)
    ensures Increasing(IssuedLossy(c0, floors, back))
    ensures forall i :: 0 <= i < |floors| ==> IssuedLossy(c0, floors, back)[i] <= AfterLossy(c0, floors, back)
  {
    var n := |floors|;
    if n > 0 {
      var init, backInit := floors[..n - 1], back[..n - 1];
      LeadsInit(c0, floors);
      OlderInit(c0, floors, back);
      LossySurvives(c0, init, backInit);
      LossOnlyLowers(c0, init, backInit);
      assert n > 1 ==> floors[n - 1] > After(c0, floors[..n - 1]);
      OneMore(IssuedLossy(c0, init, backInit), AfterLossy(c0, init, backInit), AfterLossy(c0, floors, back));
    }
  }

  lemma {:induction false} NoLossIsLossless(c0: nat, floors: seq<nat>, back: seq<Option<nat>>)
    requires |back| == |floors| && forall i :: 0 <= i < |back| ==> back[i] == None
    ensures AfterLossy(c0, floors, back) == After(c0, floors)
  {
    var n := |floors|;
    if n > 0 {
      NoLossIsLossless(c0, floors[..n - 1], back[..n - 1]);
    }
  }

  lemma {:induction false} IssuedLossyIndex(c0: nat, floors: seq<nat>, back: seq<Option<nat>>, i: nat)
    requires |back| == |floors| && i < |floors|
    ensures IssuedLossy(c0, floors, back)[i] == AfterLossy(c0, floors[..i + 1], back[..i + 1])
  {
    var n := |floors|;
    if i == n - 1 {
      assert floors[..n] == floors && back[..n] == back;
    } else {
      IssuedLossyIndex(c0, floors[..n - 1], back[..n - 1], i);
      assert floors[..n - 1][..i + 1] == floors[..i + 1] && back[..n - 1][..i + 1] == back[..i + 1];
    }
  }

  /** The file is lost before send i, and at no other time. */
  function LostAt(n: nat, i: nat): (back: seq<Option<nat>>)
    ensures |back| == n
  {
    seq(n, k => if k == i then Some(0) else None)
  }

  /** A loss just before send i repeats or undercuts a counter unless the clock leads there. */
  lemma LossNeedsLead(c0: nat, floors: seq<nat>, i: nat)
    requires 0 < i < |floors| && floors[i] <= After(c0, floors[..i])
    ensures Older(c0, floors, LostAt(|floors|, i)) && !Increasing(IssuedLossy(c0, floors, LostAt(|floors|, i)))
  {
    var back := LostAt(|floors|, i);
    var cs := IssuedLossy(c0, floors, back);
    IssuedLossyIndex(c0, floors, back, i - 1);
    IssuedLossyIndex(c0, floors, back, i);
    NoLossIsLossless(c0, floors[..i], back[..i]);
    assert back[..i + 1][i] == Some(0) && floors[..i + 1][i] == floors[i];
    assert cs[i] == Bump(0, floors[i]);
    assert cs[i - 1] == After(c0, floors[..i]) >= 1;
    assert cs[i] <= cs[i - 1];
  }

  /** Counters keep increasing under every pattern of losses and restores exactly when the clock
      leads the lossless counter at every later send. */
  lemma SurvivesLossesIff(c0: nat, floors: seq<nat>)
    ensures (forall back :: Older(c0, floors, back) ==> Increasing(IssuedLossy(c0, floors, back)))
            <==> ClockLeads(c0, floors)
  {
    if ClockLeads(c0, floors) {
      forall back | Older(c0, floors, back)
        ensures Increasing(IssuedLossy(c0, floors, back))
      {
        LossySurvives(c0, floors, back);
      }
    } else {
      var i :| 0 < i < |floors| && floors[i] <= After(c0, floors[..i]);
      LossNeedsLead(c0, floors, i);
    }
  }

  /** A clock that strictly advances from above the stored counter always leads. */
  lemma {:induction false} AdvancingClockLeads(c0: nat, floors: seq<nat>)
    requires Clock(floors) && Increasing(floors) && (floors != [] ==> c0 < floors[0])
    ensures ClockLeads(c0, floors)
    ensures floors != [] ==> After(c0, floors) == floors[|floors| - 1]
  {
    var n := |floors|;
    if n > 0 {
      var init := floors[..n - 1];
      AdvancingClockLeads(c0, init);
      forall i | 0 < i < n
        ensures floors[i] > After(c0, floors[..i])
      {
        if i < n - 1 {
          assert init[..i] == floors[..i] && init[i] == floors[i];
        } else {
          assert floors[n - 2] < floors[n - 1];
        }
      }
    }
  }

  // ---- lost state against the server's check -------------------------------------------------

  lemma {:induction false} FirstLossy(c0: nat, floors: seq<nat>, back: seq<Option<nat>>)
    requires |back| == |floors| && floors != []
    ensures IssuedLossy(c0, floors, back)[0] == Bump(if back[0].Some? then back[0].value else c0, floors[0])
  {
    IssuedLossyIndex(c0, floors, back, 0);
    assert floors[..1][..0] == [] && back[..1][..0] == [];
  }

  /** Of increasing counters above the server's mark, any in issue order pass. */
  lemma ChosenPass(h: nat, cs: seq<nat>, which: seq<nat>)
    requires Increasing(cs) && (cs != [] ==> cs[0] > h) && Positions(which, |cs|)
    ensures AllPass(h, Select(cs, which))
  {
    var got := Select(cs, which);
    forall i, j | 0 <= i < j < |[h] + got|
      ensures ([h] + got)[i] < ([h] + got)[j]
    {
      var b := which[j - 1];
      assert got[j - 1] == cs[b] && (b > 0 ==> cs[0] < cs[b]);
      if i > 0 {
        assert got[i - 1] == cs[which[i - 1]] && which[i - 1] < b;
      }
    }
    PassIffIncreasing(h, got);
  }

  /** However often the client loses or restores its state, and whichever of its packets arrive,
      the server's check passes them. */
  ghost predicate AlwaysPasses(c0: nat, floors: seq<nat>, h: nat) {
    forall back: seq<Option<nat>>, which: seq<nat> :: Older(c0, floors, back) && Positions(which, |floors|) ==>
      AllPass(h, Select(IssuedLossy(c0, floors, back), which))
  }

  /** If all packets pass under one pattern of losses, its counters increase from above h. */
  lemma AllIssuedPass(c0: nat, floors: seq<nat>, h: nat, back: seq<Option<nat>>)
    requires AlwaysPasses(c0, floors, h) && Older(c0, floors, back)
    ensures Increasing([h] + IssuedLossy(c0, floors, back))
  {
    var cs, all := IssuedLossy(c0, floors, back), seq(|floors|, k => k);
    assert Positions(all, |floors|);
    assert Select(cs, all) == cs;
    PassIffIncreasing(h, cs);
  }

  lemma IncreasingBehind(h: nat, cs: seq<nat>)
    requires Increasing([h] + cs)
    ensures Increasing(cs) && (cs != [] ==> h < cs[0])
  {
    forall i, j | 0 <= i < j < |cs|
      ensures cs[i] < cs[j]
    {
      assert ([h] + cs)[i + 1] < ([h] + cs)[j + 1];
    }
    if cs != [] {
      assert ([h] + cs)[0] < ([h] + cs)[1];
    }
  }

  lemma LeadPasses(c0: nat, floors: seq<nat>, h: nat, back: seq<Option<nat>>, which: seq<nat>)
    requires floors != [] && ClockLeads(c0, floors) && Bump(0, floors[0]) > h
    requires Older(c0, floors, back) && Positions(which, |floors|)
    ensures AllPass(h, Select(IssuedLossy(c0, floors, back), which))
  {
    LossySurvives(c0, floors, back);
    FirstLossy(c0, floors, back);
    ChosenPass(h, IssuedLossy(c0, floors, back), which);
  }

  /** Packets pass under every pattern of losses, restores and arrivals exactly when the clock
      leads the lossless counter at every later send, and a first send without state is above the
      server's mark. */
  lemma PassesDespiteLossesIff(c0: nat, floors: seq<nat>, h: nat)
    requires floors != []
    ensures AlwaysPasses(c0, floors, h) <==> ClockLeads(c0, floors) && Bump(0, floors[0]) > h
  {
    if ClockLeads(c0, floors) && Bump(0, floors[0]) > h {
      forall back: seq<Option<nat>>, which: seq<nat> | Older(c0, floors, back) && Positions(which, |floors|)
        ensures AllPass(h, Select(IssuedLossy(c0, floors, back), which))
      {
        LeadPasses(c0, floors, h, back, which);
      }
    }
    if AlwaysPasses(c0, floors, h) {
      var lost := LostAt(|floors|, 0);
      AllIssuedPass(c0, floors, h, lost);
      FirstLossy(c0, floors, lost);
      IncreasingBehind(h, IssuedLossy(c0, floors, lost));
      forall back | Older(c0, floors, back)
        ensures Increasing(IssuedLossy(c0, floors, back))
      {
        AllIssuedPass(c0, floors, h, back);
        IncreasingBehind(h, IssuedLossy(c0, floors, back));
      }
      SurvivesLossesIff(c0, floors);
    }
  }

  /** With a clock that strictly advances from above the stored counter and the server's mark,
      whatever state is lost or restored and whichever packets arrive, the server passes them. */
  lemma AdvancingClockPasses(c0: nat, floors: seq<nat>, h: nat, back: seq<Option<nat>>, which: seq<nat>)
    requires Clock(floors) && Increasing(floors) && (floors != [] ==> c0 < floors[0] && h < floors[0])
    requires Older(c0, floors, back) && Positions(which, |floors|)
    ensures AllPass(h, Select(IssuedLossy(c0, floors, back), which))
  {
    AdvancingClockLeads(c0, floors);
    if floors != [] {
      LeadPasses(c0, floors, h, back, which);
    }
  }
}
