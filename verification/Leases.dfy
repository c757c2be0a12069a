/** Which project planes stay loaded in src/bilinc/cloud/runtime.py: leases count the calls in flight, and only planes
    nobody uses are evicted, least recently used first. */
module Leases {
  import opened Wrappers
  import opened KeyOrder

  type Stamps = map<string, real>

  function StampOf(lastUsed: Stamps, project: string): real {
    if project in lastUsed then lastUsed[project] else 0.0
  }

  /** The order of `(stamp, project)` pairs. */
  predicate Older(lastUsed: Stamps, a: string, b: string) {
    || StampOf(lastUsed, a) < StampOf(lastUsed, b)
    || (StampOf(lastUsed, a) == StampOf(lastUsed, b) && Less(a, b))
  }

  lemma OlderTotal(lastUsed: Stamps, a: string, b: string)
    ensures Older(lastUsed, a, b) || a == b || Older(lastUsed, b, a)
    ensures !(Older(lastUsed, a, b) && Older(lastUsed, b, a)) && !Older(lastUsed, a, a)
  {
    LessTrichotomy(a, b);
    LessTrichotomy(a, a);
  }

  lemma OlderTransitive(lastUsed: Stamps, a: string, b: string, c: string)
    requires Older(lastUsed, a, b) && Older(lastUsed, b, c)
    ensures Older(lastUsed, a, c)
  {
    if Less(a, b) && Less(b, c) {
      LessTransitive(a, b, c);
    }
  }

  ghost predicate ByAge(lastUsed: Stamps, s: seq<string>) {
    forall i, j :: 0 <= i < j < |s| ==> Older(lastUsed, s[i], s[j])
  }

  // ---------------------------------------------------------------- one eviction round

  /** What a round reads: the loaded planes, the calls in flight, the stamps, the clock and the settings. */
  datatype Round = Round(planes: set<string>, busy: set<string>, lastUsed: Stamps, now: real, keep: Option<string>,
                         idleSeconds: real, planeMax: int)

  function Idle(r: Round): set<string> {
    set p | p in r.planes && p !in r.busy && r.keep != Some(p)
  }

  function Expired(r: Round): set<string> {
    set p | p in Idle(r) && r.idleSeconds > 0.0 && r.now - StampOf(r.lastUsed, p) >= r.idleSeconds
  }

  // How many planes the cap still asks for once the expired ones are gone.
  function Excess(r: Round): nat {
    if r.planeMax <= 0 then 0 else
      var excess := |r.planes| - |Expired(r)| - r.planeMax;
      if excess < 0 then 0 else excess
  }

  function Min(a: nat, b: nat): nat {
    if a < b then a else b
  }

  // Everything taken is older than everything left.
  ghost predicate OldestFirst(lastUsed: Stamps, all: set<string>, taken: set<string>) {
    forall v, u :: v in taken && u in all - taken ==> Older(lastUsed, v, u)
  }

  /** What a round takes: idle planes only, all that expired, as many more as the cap asks for, oldest first. */
  ghost predicate Evicts(r: Round, victims: set<string>) {
    && Expired(r) <= victims <= Idle(r)
    && |victims| == |Expired(r)| + Min(Excess(r), |Idle(r) - Expired(r)|)
    && OldestFirst(r.lastUsed, Idle(r), victims)
  }

  /** A round in plain terms: it takes only loaded planes with no call in flight other than the one just asked for; each of
      those that has not been used for the idle time, when one is set; and, where there is a cap, as many more as it takes to
      keep to it, or all (`EvictsAsMany`). What it takes was last used before what it leaves, or at the same time and comes
      first by name. */
  lemma EvictsMeans(r: Round, victims: set<string>, p: string, q: string)
    requires Evicts(r, victims)
    ensures p in victims ==> p in r.planes && p !in r.busy && r.keep != Some(p)
    ensures var a, b := if p in r.lastUsed then r.lastUsed[p] else 0.0, if q in r.lastUsed then r.lastUsed[q] else 0.0;
      && (p in r.planes && p !in r.busy && r.keep != Some(p) && r.idleSeconds > 0.0 && r.now - a >= r.idleSeconds ==> p in victims)
      && (p in victims && q !in victims && q in r.planes && q !in r.busy && r.keep != Some(q) ==>
            a < b || (a == b && Less(p, q)))
  {
    hide Less;
    if p in Idle(r) && r.idleSeconds > 0.0 && r.now - StampOf(r.lastUsed, p) >= r.idleSeconds {
      assert p in Expired(r);
    }
    if p in victims && q in Idle(r) - victims {
      assert Older(r.lastUsed, p, q);
    }
  }

  lemma EvictsAsMany(r: Round, victims: set<string>)
    requires Evicts(r, victims)
    ensures var idle := set x | x in r.planes && x !in r.busy && r.keep != Some(x);
      var expired := set x | x in idle && r.idleSeconds > 0.0 &&
                             r.now - (if x in r.lastUsed then r.lastUsed[x] else 0.0) >= r.idleSeconds;
      var wanted := |r.planes| - r.planeMax;
      |victims| == if r.planeMax <= 0 || wanted <= |expired| then |expired| else if wanted >= |idle| then |idle| else wanted
  {
    assert Idle(r) == set x | x in r.planes && x !in r.busy && r.keep != Some(x);
    assert Expired(r) == set x | x in Idle(r) && r.idleSeconds > 0.0 &&
                                 r.now - (if x in r.lastUsed then r.lastUsed[x] else 0.0) >= r.idleSeconds;
    SubsetSize(Expired(r), Idle(r));
  }

  lemma SubsetOfSameSize(a: set<string>, b: set<string>)
    requires a <= b && |a| == |b|
    ensures a == b
  {
    SubsetSize(a, b);
    assert b == a + (b - a);
  }

  /** A round's outcome is determined: no two different sets fit the description. */
  lemma EvictionIsDetermined(r: Round, a: set<string>, b: set<string>)
    requires Evicts(r, a) && Evicts(r, b)
    ensures a == b
  {
    if a != b {
      assert !(a <= b) by {
        if a <= b {
          SubsetOfSameSize(a, b);
        }
      }
      assert !(b <= a) by {
        if b <= a {
          SubsetOfSameSize(b, a);
        }
      }
      var x :| x in a && x !in b;
      var y :| y in b && y !in a;
      assert Older(r.lastUsed, x, y) && Older(r.lastUsed, y, x);
      OlderTotal(r.lastUsed, x, y);
    }
  }

  /** After a capped round at most the cap, or only planes in use, remain. */
  lemma CapHolds(r: Round, victims: set<string>)
    requires Evicts(r, victims) && r.planeMax > 0
    ensures |r.planes - victims| <= r.planeMax || r.planes - victims == r.planes - Idle(r)
  {
    SubsetSize(victims, r.planes);
    SubsetSize(Expired(r), Idle(r));
    if Excess(r) >= |Idle(r) - Expired(r)| {
      SubsetSize(victims, Idle(r));
      assert |Idle(r) - victims| == 0;
      assert victims == Idle(r) by {
        assert Idle(r) == victims + (Idle(r) - victims);
      }
    }
  }

  /** Nothing in use, and not the plane just asked for, is ever a victim. */
  lemma VictimsAreIdle(r: Round, victims: set<string>)
    requires Evicts(r, victims)
    ensures victims !! r.busy && (r.keep.Some? ==> r.keep.value !in victims)
  {
  }

  // ---------------------------------------------------------------- sorting by age

  method SortByAge(projects: set<string>, lastUsed: Stamps) returns (s: seq<string>)
    ensures ByAge(lastUsed, s) && Elements(s) == projects && |s| == |projects|
  {
    s := [];
    var rest := projects;
    while rest != {}
      invariant rest <= projects && ByAge(lastUsed, s) && Elements(s) == projects - rest && |s| == |projects| - |rest|
      decreases |rest|
    {
      SubsetSize(rest, projects);
      var p := Least(rest);
      s := Insert(lastUsed, s, p);
      assert projects - (rest - {p}) == (projects - rest) + {p};
      rest := rest - {p};
    }
  }

  method Insert(lastUsed: Stamps, s: seq<string>, p: string) returns (t: seq<string>)
    requires ByAge(lastUsed, s) && p !in s
    ensures ByAge(lastUsed, t) && Elements(t) == Elements(s) + {p} && |t| == |s| + 1
  {
    var i := |s|;
    while i > 0 && Older(lastUsed, p, s[i - 1])
      invariant 0 <= i <= |s|
      invariant forall j :: i <= j < |s| ==> Older(lastUsed, p, s[j])
    {
      i := i - 1;
    }
    forall j | 0 <= j < i
      ensures Older(lastUsed, s[j], p)
    {
      OlderTotal(lastUsed, s[i - 1], p);
      if j < i - 1 {
        OlderTransitive(lastUsed, s[j], s[i - 1], p);
      }
    }
    t := s[..i] + [p] + s[i..];
    InsertedElements(s, i, p);
  }

  lemma InsertedElements(s: seq<string>, i: nat, p: string)
    requires i <= |s|
    ensures Elements(s[..i] + [p] + s[i..]) == Elements(s) + {p}
  {
    assert s == s[..i] + s[i..];
    var t := s[..i] + [p] + s[i..];
    forall k
      ensures k in t <==> k in s || k == p
    {
      assert t[i] == p;
    }
  }

  lemma FirstAreOldest(lastUsed: Stamps, s: seq<string>, n: nat)
    requires ByAge(lastUsed, s) && n <= |s|
    ensures |Elements(s[..n])| == n && Elements(s[..n]) <= Elements(s)
    ensures OldestFirst(lastUsed, Elements(s), Elements(s[..n]))
  {
    FirstCount(lastUsed, s, n);
    forall v, u | v in Elements(s[..n]) && u in Elements(s) - Elements(s[..n])
      ensures Older(lastUsed, v, u)
    {
      assert s == s[..n] + s[n..];
      var i :| 0 <= i < n && s[i] == v;
      var j :| n <= j < |s| && s[j] == u;
    }
  }

  lemma {:induction false} FirstCount(lastUsed: Stamps, s: seq<string>, n: nat)
    requires ByAge(lastUsed, s) && n <= |s|
    ensures |Elements(s[..n])| == n
  {
    hide Older;
    if n == 0 {
      assert Elements(s[..0]) == {};
    } else {
      FirstCount(lastUsed, s, n - 1);
      assert s[..n] == s[..n - 1] + [s[n - 1]];
      assert Elements(s[..n]) == Elements(s[..n - 1]) + {s[n - 1]};
      forall i | 0 <= i < n - 1
        ensures s[i] != s[n - 1]
      {
        OlderTotal(lastUsed, s[i], s[n - 1]);
      }
    }
  }

  lemma RoundEvicts(r: Round, more: set<string>)
    requires more <= Idle(r) - Expired(r) && |more| == Min(Excess(r), |Idle(r) - Expired(r)|)
    requires OldestFirst(r.lastUsed, Idle(r) - Expired(r), more)
    ensures Evicts(r, Expired(r) + more)
  {
    hide Excess, Min;
    assert Expired(r) !! more;
  }

  lemma NoneTaken(lastUsed: Stamps, all: set<string>)
    ensures OldestFirst(lastUsed, all, {})
  {
  }

  /** The idle planes past the limit, then the oldest of the others while the cap is exceeded. */
  method ChooseVictims(r: Round) returns (victims: seq<string>)
    ensures Evicts(r, Elements(victims))
  {
    hide Evicts, ByAge, OldestFirst, Idle, Expired, Elements;
    var idle, expired := Idle(r), Expired(r);
    victims := Arrange(expired);
    ArrangedElements(expired);
    if r.planeMax > 0 {
      var survivors := SortByAge(idle - expired, r.lastUsed);
      var excess: int := |r.planes| - |victims| - r.planeMax;
      var n := if excess < 0 then 0 else if excess > |survivors| then |survivors| else excess;
      FirstAreOldest(r.lastUsed, survivors, n);
      RoundEvicts(r, Elements(survivors[..n]));
      ElementsConcat(victims, survivors[..n]);
      victims := victims + survivors[..n];
    } else {
      NoneTaken(r.lastUsed, idle - expired);
      RoundEvicts(r, {});
      assert expired + {} == expired;
    }
  }

  lemma ElementsConcat(a: seq<string>, b: seq<string>)
    ensures Elements(a + b) == Elements(a) + Elements(b)
  {
  }

  lemma ElementsNext(s: seq<string>, i: nat)
    requires i < |s|
    ensures Elements(s[..i + 1]) == Elements(s[..i]) + {s[i]} && s[i] in Elements(s)
  {
    FrontElements(s, i);
  }

  // ---------------------------------------------------------------- the manager

  /** The in-flight counts are exact, and stamps are kept for just the projects loaded or in flight. */
  ghost predicate Accounted(planes: set<string>, inflight: map<string, nat>, lastUsed: Stamps, active: multiset<string>) {
    && (forall p :: p in inflight <==> p in active)
    && (forall p :: p in inflight ==> inflight[p] == active[p])
    && lastUsed.Keys == planes + inflight.Keys
  }

  lemma AccountedMeans(planes: set<string>, inflight: map<string, nat>, lastUsed: Stamps, active: multiset<string>, p: string)
    requires Accounted(planes, inflight, lastUsed, active)
    ensures active[p] == if p in inflight then inflight[p] else 0
    ensures p in inflight ==> inflight[p] > 0
    ensures p in lastUsed <==> p in planes || p in inflight
  {
    assert p in lastUsed.Keys <==> p in planes + inflight.Keys;
  }

  lemma FinishAccounted(planes: set<string>, inflight: map<string, nat>, lastUsed: Stamps, active: multiset<string>,
                        project: string, now: real)
    requires Accounted(planes, inflight, lastUsed, active) && project in active
    ensures project in inflight && inflight[project] == active[project] > 0
    ensures var left := active - multiset{project};
      && (project in left <==> active[project] > 1)
      && (active[project] > 1 ==> Accounted(planes, inflight[project := inflight[project] - 1], lastUsed, left))
      && (active[project] == 1 ==>
            Accounted(planes, inflight - {project},
                      if project in planes then lastUsed[project := now] else lastUsed - {project}, left))
  {
    var left := active - multiset{project};
    assert forall p :: left[p] == if p == project then active[p] - 1 else active[p];
  }

  lemma EvictionAccounted(planes: set<string>, inflight: map<string, nat>, lastUsed: Stamps, active: multiset<string>,
                          gone: set<string>)
    requires Accounted(planes, inflight, lastUsed, active) && gone !! inflight.Keys
    ensures Accounted(planes - gone, inflight, lastUsed - gone, active)
    ensures forall p :: p in active && p in planes ==> p in planes - gone
  {
    assert (lastUsed - gone).Keys == lastUsed.Keys - gone;
  }

  lemma LoadAccounted(planes: set<string>, inflight: map<string, nat>, lastUsed: Stamps, active: multiset<string>,
                      project: string, now: real)
    requires Accounted(planes, inflight, lastUsed, active)
    ensures Accounted(planes + {project}, inflight, if project in lastUsed then lastUsed else lastUsed[project := now], active)
    ensures inflight.Keys == set p | p in active
  {
  }

  lemma NotIdle(r: Round)
    ensures forall p :: p in r.planes - Idle(r) ==> p in r.busy || r.keep == Some(p)
  {
  }

  class ProjectRuntimeManager {
    var planes: set<string>
    var inflight: map<string, nat>
    var lastUsed: Stamps
    const idleSeconds: real
    const planeMax: int
    /** The calls really running now. */
    ghost var active: multiset<string>

    constructor (idleSeconds: real, planeMax: int)
      ensures Valid() && planes == {} && active == multiset{}
      ensures this.idleSeconds == idleSeconds && this.planeMax == planeMax
    {
      planes, inflight, lastUsed, active := {}, map[], map[], multiset{};
      this.idleSeconds, this.planeMax := idleSeconds, planeMax;
    }

    ghost predicate Valid()
      reads this
    {
      Accounted(planes, inflight, lastUsed, active)
    }

    // A call takes its lease before its first await.
    method StartCall(project: string, now: real)
      requires Valid()
      modifies this
      ensures Valid() && planes == old(planes) && active == old(active) + multiset{project}
      ensures lastUsed == old(lastUsed)[project := now]
    {
      inflight := inflight[project := (if project in inflight then inflight[project] else 0) + 1];
      lastUsed := lastUsed[project := now];
      active := active + multiset{project};
    }

    method FinishCall(project: string, now: real)
      requires Valid() && project in active
      modifies this
      ensures Valid() && planes == old(planes) && active == old(active) - multiset{project}
      ensures lastUsed == if project in active then old(lastUsed)
                          else if project in planes then old(lastUsed)[project := now] else old(lastUsed) - {project}
    {
      hide Accounted;
      FinishAccounted(planes, inflight, lastUsed, active, project, now);
      var remaining: int := (if project in inflight then inflight[project] else 1) - 1;
      if remaining > 0 {
        inflight := inflight[project := remaining];
      } else {
        inflight := inflight - {project};
        lastUsed := if project in planes then lastUsed[project := now] else lastUsed - {project};
      }
      active := active - multiset{project};
    }

    function RoundNow(now: real, keep: Option<string>): Round
      reads this
    {
      Round(planes, inflight.Keys, lastUsed, now, keep, idleSeconds, planeMax)
    }

    /** One eviction round. No plane with a call in flight goes, so no call loses its plane. */
    method EvictIdle(now: real, keep: Option<string>) returns (victims: seq<string>)
      requires Valid()
      modifies this
      ensures Valid() && active == old(active) && inflight == old(inflight)
      ensures Evicts(Round(old(planes), old(inflight).Keys, old(lastUsed), now, keep, idleSeconds, planeMax), Elements(victims))
      ensures planes == old(planes) - Elements(victims) && lastUsed == old(lastUsed) - Elements(victims)
      ensures forall p :: p in active && p in old(planes) ==> p in planes
    {
      hide Evicts, Idle, Elements, Accounted;
      var round := RoundNow(now, keep);
      victims := ChooseVictims(round);
      ghost var gone := Elements(victims);
      VictimsAreIdle(round, gone);
      EvictionAccounted(planes, inflight, lastUsed, active, gone);
      BeginEvictions(victims);
    }

    method BeginEvictions(victims: seq<string>)
      requires Elements(victims) !! inflight.Keys
      modifies `planes, `inflight, `lastUsed
      ensures planes == old(planes) - Elements(victims) && lastUsed == old(lastUsed) - Elements(victims)
      ensures inflight == old(inflight)
    {
      for i := 0 to |victims|
        invariant planes == old(planes) - Elements(victims[..i])
        invariant lastUsed == old(lastUsed) - Elements(victims[..i])
        invariant inflight == old(inflight)
      {
        ElementsNext(victims, i);
        BeginEviction(victims[i]);
      }
      assert victims[..|victims|] == victims;
    }

    method BeginEviction(project: string)
      requires project !in inflight
      modifies `planes, `inflight, `lastUsed
      ensures planes == old(planes) - {project} && lastUsed == old(lastUsed) - {project} && inflight == old(inflight)
    {
      planes := planes - {project};
      inflight := inflight - {project};
      lastUsed := lastUsed - {project};
    }

    /** Loads a plane and enforces the cap. What remains fits the cap, or is the loaded plane and those in flight. */
    method GetPlane(project: string, now: real)
      requires Valid()
      modifies this
      ensures Valid() && active == old(active) && project in planes
      ensures planes <= old(planes) + {project}
      ensures project in old(planes) || planeMax <= 0 ==> planes == old(planes) + {project}
      ensures forall p :: p in active && p in old(planes) ==> p in planes
      ensures project !in old(planes) && planeMax > 0 ==>
        |planes| <= planeMax || (forall p :: p in planes ==> p in active || p == project)
    {
      if project in planes {
        return;
      }
      planes := planes + {project};
      if project !in lastUsed {
        lastUsed := lastUsed[project := now];
      }
      LoadAccounted(old(planes), inflight, old(lastUsed), active, project, now);
      if planeMax > 0 {
        hide Accounted, Evicts, Idle, Elements;
        ghost var round := RoundNow(now, Some(project));
        var victims := EvictIdle(now, Some(project));
        CapHolds(round, Elements(victims));
        VictimsAreIdle(round, Elements(victims));
        NotIdle(round);
      }
    }
  }
}
