/**
 * Whole runs of the bloom index: safety in every reachable state, what a single event may
 * do to a page, freedom from deadlock, and completeness of scans.
 */
module BloomRuns {
  import opened Options
  import opened BloomSignatures
  import opened BloomIndex

  predicate ValidRun(c: Config, s: State, es: seq<Event>)
    decreases |es|
  {
    es == [] || (Enabled(c, s, es[0]) && ValidRun(c, Apply(c, s, es[0]), es[1..]))
  }

  function Run(c: Config, s: State, es: seq<Event>): State
    requires ValidRun(c, s, es)
    decreases |es|
  {
    if es == [] then s else Run(c, Apply(c, s, es[0]), es[1..])
  }

  /** The pages of a build hold exactly the tuples of the heap. */
  lemma {:induction false} TuplesOfBuild(pages: seq<seq<Tuple>>)
    ensures AllTuples(DataPages(pages)) == multiset(Flatten(pages))
    decreases |pages|
  {
    if pages != [] {
      var init, last := pages[..|pages| - 1], pages[|pages| - 1];
      TuplesOfBuild(init);
      assert DataPages(pages) == DataPages(init) + [Data(false, last)];
      AllTuplesSnoc(DataPages(init), Data(false, last));
    }
  }

  lemma {:induction false} AllTuplesSnoc(pages: seq<Page>, page: Page)
    ensures AllTuples(pages + [page]) == AllTuples(pages) + multiset(Tuples(page))
    decreases |pages|
  {
    if pages == [] {
      assert ([] + [page])[1..] == [];
    } else {
      assert (pages + [page])[1..] == pages[1..] + [page];
      AllTuplesSnoc(pages[1..], page);
    }
  }

  lemma {:induction false} AllTuplesFirst(pages: seq<Page>)
    requires pages != [] && pages[0] == MetaPage
    ensures AllTuples(pages) == AllTuples(pages[1..])
  {
    assert multiset(Tuples(pages[0])) == multiset{};
  }

  /** The index that blbuild leaves satisfies the invariant, whatever the heap holds. */
  lemma {:induction false} BuiltInv(c: Config, heap: seq<Tuple>, pages: seq<seq<Tuple>>)
    requires c.Valid() && BuiltFrom(c, heap, pages)
    ensures Inv(c, Built(c, pages)) && Built(c, pages).inserted == multiset(heap)
  {
    hide Flatten, AllTuples;
    var s := Built(c, pages);
    TuplesOfBuild(pages);
    assert s.pages[0] == MetaPage && s.pages[1..] == DataPages(pages);
    AllTuplesFirst(s.pages);
  }

  lemma {:induction false} InvAlong(c: Config, s: State, es: seq<Event>)
    requires c.Valid() && Inv(c, s) && ValidRun(c, s, es)
    ensures Inv(c, Run(c, s, es))
    decreases |es|
  {
    hide Inv, Apply;
    if es != [] {
      InvKept(c, s, es[0]);
      InvAlong(c, Apply(c, s, es[0]), es[1..]);
    }
  }

  /** In every state reachable from a build over any heap, under any interleaving: deleted
      pages are empty, the list of pages with room is well formed, one process at most holds
      the metapage, a page that was added to the file is still unused when its process comes
      to fill it, and every tuple of the heap or inserted since is on a page or was removed by
      vacuum. */
  lemma {:induction false} Reachable(c: Config, heap: seq<Tuple>, pages: seq<seq<Tuple>>, es: seq<Event>)
    requires c.Valid() && BuiltFrom(c, heap, pages) && ValidRun(c, Built(c, pages), es)
    ensures var s := Run(c, Built(c, pages), es);
            && (forall b :: 0 <= b < |s.pages| && s.pages[b].Data? && s.pages[b].deleted ==> s.pages[b].tuples == [])
            && s.meta.nStart <= s.meta.nEnd <= c.blockN
            && (forall p, q :: p in s.procs && q in s.procs && HoldsMeta(s.procs[p]) && HoldsMeta(s.procs[q]) ==>
                                 p == q)
            && (forall p :: p in s.procs && s.procs[p].InsExtended? ==>
                              s.procs[p].blk < |s.pages| && s.pages[s.procs[p].blk].New?)
            && multiset(heap) <= s.inserted == AllTuples(s.pages) + s.removed
  {
    BuiltInv(c, heap, pages);
    InvAlong(c, Built(c, pages), es);
    InsertedGrows(c, Built(c, pages), es);
    var s := Run(c, Built(c, pages), es);
    assert forall b :: 0 <= b < |s.pages| ==> GoodPage(c, s.pages[b]);
    assert forall p :: p in s.procs ==> GoodProc(c, s, p);
  }

  lemma {:induction false} InsertedGrows(c: Config, s: State, es: seq<Event>)
    requires ValidRun(c, s, es)
    ensures s.inserted <= Run(c, s, es).inserted
    decreases |es|
  {
    if es != [] {
      InsertedKept(c, s, es[0]);
      InsertedGrows(c, Apply(c, s, es[0]), es[1..]);
    }
  }

  lemma {:induction false} InsertedKept(c: Config, s: State, e: Event)
    requires Enabled(c, s, e)
    ensures s.inserted <= Apply(c, s, e).inserted
  {
  }

  // ----- what one event does to one page -----

  /** Tuples stay on their page: it is unchanged, or one inserter appends its own tuple, or
      a vacuum that has reached it drops tuples that are to be deleted. */
  lemma {:induction false} PageEffect(c: Config, s: State, e: Event, b: nat)
    requires c.Valid() && Inv(c, s) && Enabled(c, s, e) && b < |s.pages|
    ensures b < |Apply(c, s, e).pages|
    ensures var before, after := Tuples(s.pages[b]), Tuples(Apply(c, s, e).pages[b]);
            || after == before
            || (Inserts(e) && after == before + [s.procs[e.p].t])
            || (e.VacuumPage? && s.procs[e.p].blk == b && after == Live(before, s.procs[e.p].dead))
  {
    hide Inv, Apply, Live;
    if e.VacuumPage? {
      VacuumEffect(c, s, e, b);
    } else if Inserts(e) {
      InsertEffect(c, s, e, b);
    } else {
      QuietEffect(c, s, e, b);
    }
  }

  lemma {:induction false} VacuumEffect(c: Config, s: State, e: Event, b: nat)
    requires Inv(c, s) && Enabled(c, s, e) && e.VacuumPage? && b < |s.pages|
    ensures b < |Apply(c, s, e).pages|
    ensures Tuples(Apply(c, s, e).pages[b]) ==
            if s.procs[e.p].blk == b && !Reusable(s.pages[b]) then Live(Tuples(s.pages[b]), s.procs[e.p].dead)
            else Tuples(s.pages[b])
  {
    hide Balanced, Live, Dead, Vacuumed;
    assert GoodPage(c, s.pages[b]);
    VacuumedPage(c, s.pages[s.procs[e.p].blk], s.procs[e.p].dead);
  }

  predicate Inserts(e: Event) {
    e.TryFirst? || e.TryNext? || e.Recycle? || e.FillExtended?
  }

  lemma {:induction false} InsertEffect(c: Config, s: State, e: Event, b: nat)
    requires c.Valid() && Inv(c, s) && Enabled(c, s, e) && Inserts(e) && b < |s.pages|
    ensures b < |Apply(c, s, e).pages|
    ensures var before, after := Tuples(s.pages[b]), Tuples(Apply(c, s, e).pages[b]);
            after == before || after == before + [s.procs[e.p].t]
  {
    hide Balanced, Live, Dead, Vacuumed, GoodMeta;
    assert GoodPage(c, s.pages[b]);
    assert GoodProc(c, s, e.p);
  }

  lemma {:induction false} QuietEffect(c: Config, s: State, e: Event, b: nat)
    requires Enabled(c, s, e) && !e.VacuumPage? && !Inserts(e) && b < |s.pages|
    ensures b < |Apply(c, s, e).pages| && Apply(c, s, e).pages[b] == s.pages[b]
  {
  }

  /** Only the delete callback removes a tuple. */
  lemma {:induction false} OnlyVacuumRemoves(c: Config, s: State, e: Event, b: nat, t: Tuple)
    requires c.Valid() && Inv(c, s) && Enabled(c, s, e) && b < |s.pages|
    requires t in Tuples(s.pages[b])
    ensures b < |Apply(c, s, e).pages|
    ensures t !in Tuples(Apply(c, s, e).pages[b]) ==>
              e.VacuumPage? && s.procs[e.p].blk == b && t.heap in s.procs[e.p].dead
  {
    hide Inv, Apply, Live;
    PageEffect(c, s, e, b);
    if e.VacuumPage? { LiveMember(Tuples(s.pages[b]), s.procs[e.p].dead, t); }
  }

  // ----- bulk deletion -----

  /** No event of the run appends a copy of the tuple to the page. */
  predicate NoCopyComes(c: Config, s: State, es: seq<Event>, b: nat, t: Tuple)
    requires ValidRun(c, s, es)
    decreases |es|
  {
    es == [] ||
    var s' := Apply(c, s, es[0]);
    && (b < |s.pages| && b < |s'.pages| ==> Tuples(s'.pages[b]) != Tuples(s.pages[b]) + [t])
    && NoCopyComes(c, s', es[1..], b, t)
  }

  /** The vacuum has still to come to the page, or the tuple is not on it. */
  ghost predicate WillDelete(s: State, p: Pid, b: nat, t: Tuple) {
    && b < |s.pages| && p in s.procs
    && match s.procs[p]
       case Vac(blk, npages, _, dead) => t.heap in dead && b < npages && (blk <= b || t !in Tuples(s.pages[b]))
       case VacDone => t !in Tuples(s.pages[b])
       case _ => false
  }

  lemma {:induction false} WillDeleteKept(c: Config, s: State, e: Event, p: Pid, b: nat, t: Tuple)
    requires c.Valid() && Inv(c, s) && Enabled(c, s, e) && WillDelete(s, p, b, t)
    requires b < |Apply(c, s, e).pages| && Tuples(Apply(c, s, e).pages[b]) != Tuples(s.pages[b]) + [t]
    ensures WillDelete(Apply(c, s, e), p, b, t)
  {
    hide Live, Inv;
    var before, after := Tuples(s.pages[b]), Tuples(Apply(c, s, e).pages[b]);
    PageEffect(c, s, e, b);
    if e.VacuumPage? {
      LiveMember(before, s.procs[e.p].dead, t);
      VacuumEffect(c, s, e, b);
      ReusableIsEmpty(c, s, b);
    }
    assert t !in before ==> t !in after;
    OwnStep(c, s, e, p);
  }

  lemma {:induction false} ReusableIsEmpty(c: Config, s: State, b: nat)
    requires Inv(c, s) && b < |s.pages|
    ensures Reusable(s.pages[b]) ==> Tuples(s.pages[b]) == []
  {
    hide Balanced, GoodMeta, GoodProc;
    assert GoodPage(c, s.pages[b]);
  }

  /** A vacuum is moved on by its own events only. */
  lemma {:induction false} OwnStep(c: Config, s: State, e: Event, p: Pid)
    requires Enabled(c, s, e) && p in s.procs && (s.procs[p].Vac? || s.procs[p].VacDone?)
    ensures p in Apply(c, s, e).procs
    ensures var v, w := s.procs[p], Apply(c, s, e).procs[p];
            if e.p != p then w == v
            else
              && v.Vac? && (e.VacuumPage? || e.VacuumMeta?)
              && (e.VacuumPage? ==> v.blk < v.npages && w.Vac? && w.blk == v.blk + 1 && w.npages == v.npages &&
                                    w.dead == v.dead)
              && (e.VacuumMeta? ==> v.blk >= v.npages && w == VacDone)
  {
    hide Live, Dead, Vacuumed, AddTo;
  }

  lemma {:induction false} WillDeleteAlong(c: Config, s: State, es: seq<Event>, p: Pid, b: nat, t: Tuple)
    requires c.Valid() && Inv(c, s) && ValidRun(c, s, es) && NoCopyComes(c, s, es, b, t) && WillDelete(s, p, b, t)
    ensures WillDelete(Run(c, s, es), p, b, t)
    decreases |es|
  {
    hide Inv, Apply, WillDelete;
    if es != [] {
      InvKept(c, s, es[0]);
      PageStays(c, s, es[0], p, b, t);
      WillDeleteKept(c, s, es[0], p, b, t);
      WillDeleteAlong(c, Apply(c, s, es[0]), es[1..], p, b, t);
    }
  }

  lemma {:induction false} PageStays(c: Config, s: State, e: Event, p: Pid, b: nat, t: Tuple)
    requires c.Valid() && Inv(c, s) && Enabled(c, s, e) && WillDelete(s, p, b, t)
    ensures b < |s.pages| && b < |Apply(c, s, e).pages|
  {
    hide Inv, Apply;
    PageEffect(c, s, e, b);
  }

  /** A finished bulk delete has removed every tuple that its callback names and of which no copy came to the page
      meanwhile, from every page that existed when it began, whatever else went on. */
  lemma {:induction false} VacuumIsComplete(c: Config, s: State, p: Pid, dead: set<int>, es: seq<Event>, b: nat,
                                            t: Tuple)
    requires c.Valid() && Inv(c, s) && Enabled(c, s, BeginVacuum(p, dead))
    requires ValidRun(c, Apply(c, s, BeginVacuum(p, dead)), es)
    requires NoCopyComes(c, Apply(c, s, BeginVacuum(p, dead)), es, b, t)
    requires b < |s.pages| && t.heap in dead
    requires var end := Run(c, Apply(c, s, BeginVacuum(p, dead)), es); p in end.procs && end.procs[p].VacDone?
    ensures var end := Run(c, Apply(c, s, BeginVacuum(p, dead)), es);
            b < |end.pages| && t !in Tuples(end.pages[b])
  {
    var started := Apply(c, s, BeginVacuum(p, dead));
    InvKept(c, s, BeginVacuum(p, dead));
    assert started.pages[0].MetaPage?;
    assert WillDelete(started, p, b, t);
    WillDeleteAlong(c, started, es, p, b, t);
  }

  // ----- insertion -----

  /** The process is inserting the tuple and has not yet put it on a page. */
  predicate Inserting(proc: Proc, t: Tuple) {
    match proc
    case InsStart(u) => u == t
    case InsTry(u, _) => u == t
    case InsWantMeta(u, _) => u == t
    case InsLoop(u, _) => u == t
    case InsNew(u) => u == t
    case InsExtended(u, _) => u == t
    case _ => false
  }

  /** The event appends the tuple to one page and leaves the tuples of all other pages as they are. */
  ghost predicate Places(c: Config, s: State, e: Event, t: Tuple)
    requires Enabled(c, s, e)
  {
    var s' := Apply(c, s, e);
    exists b :: 0 <= b < |s.pages| <= |s'.pages| && Tuples(s'.pages[b]) == Tuples(s.pages[b]) + [t] &&
                forall a :: 0 <= a < |s.pages| && a != b ==> s'.pages[a] == s.pages[a]
  }

  /** An inserting process goes on without touching a tuple, or puts its own tuple on one page and is done. */
  lemma {:induction false} InserterStep(c: Config, s: State, e: Event, t: Tuple)
    requires c.Valid() && Inv(c, s) && Enabled(c, s, e) && e.p in s.procs && Inserting(s.procs[e.p], t)
    ensures e.p in Apply(c, s, e).procs
    ensures if Apply(c, s, e).procs[e.p].InsDone? then Places(c, s, e, t)
            else Inserting(Apply(c, s, e).procs[e.p], t) && !Places(c, s, e, t)
  {
    hide Live, Dead, Vacuumed, Balanced, GoodMeta, Places, Inv;
    var s' := Apply(c, s, e);
    if s'.procs[e.p].InsDone? {
      PutsOne(c, s, e, t);
    } else {
      assert |s.pages| <= |s'.pages| && forall b :: 0 <= b < |s.pages| ==> s'.pages[b] == s.pages[b];
      NothingPlaced(c, s, e, t);
    }
  }

  lemma {:induction false} NothingPlaced(c: Config, s: State, e: Event, t: Tuple)
    requires Enabled(c, s, e) && |s.pages| <= |Apply(c, s, e).pages|
    requires forall b :: 0 <= b < |s.pages| ==> Apply(c, s, e).pages[b] == s.pages[b]
    ensures !Places(c, s, e, t)
  {
    hide Apply;
    var s' := Apply(c, s, e);
    forall b | 0 <= b < |s.pages| ensures Tuples(s'.pages[b]) != Tuples(s.pages[b]) + [t] {
      assert |Tuples(s.pages[b]) + [t]| == |Tuples(s.pages[b])| + 1;
    }
  }

  lemma {:induction false} PutsOne(c: Config, s: State, e: Event, t: Tuple)
    requires c.Valid() && Inv(c, s) && Enabled(c, s, e) && e.p in s.procs && Inserting(s.procs[e.p], t)
    requires e.p in Apply(c, s, e).procs && Apply(c, s, e).procs[e.p].InsDone?
    ensures Places(c, s, e, t)
  {
    hide Live, Dead, Vacuumed, Balanced, GoodMeta, Places;
    var s' := Apply(c, s, e);
    assert GoodProc(c, s, e.p);
    var b := match e
             case TryFirst(p) => s.procs[p].blk
             case TryNext(p) => s.meta.notFull[s.procs[p].n]
             case Recycle(_, blk) => blk
             case FillExtended(p) => s.procs[p].blk
             case _ => 0;
    assert GoodPage(c, s.pages[b]);
    assert Tuples(s'.pages[b]) == Tuples(s.pages[b]) + [t];
    PlacedAt(c, s, e, t, b);
  }

  lemma {:induction false} PlacedAt(c: Config, s: State, e: Event, t: Tuple, b: nat)
    requires Enabled(c, s, e) && b < |s.pages| <= |Apply(c, s, e).pages|
    requires Tuples(Apply(c, s, e).pages[b]) == Tuples(s.pages[b]) + [t]
    requires forall a :: 0 <= a < |s.pages| && a != b ==> Apply(c, s, e).pages[a] == s.pages[a]
    ensures Places(c, s, e, t)
  {
    hide Apply;
  }

  /** How often the process puts the tuple on a page during the run. */
  ghost function Puts(c: Config, s: State, es: seq<Event>, p: Pid, t: Tuple): nat
    requires ValidRun(c, s, es)
    decreases |es|
  {
    if es == [] then 0
    else (if es[0].p == p && Places(c, s, es[0], t) then 1 else 0) + Puts(c, Apply(c, s, es[0]), es[1..], p, t)
  }

  lemma {:induction false} DoneStaysDone(c: Config, s: State, e: Event, p: Pid)
    requires Enabled(c, s, e) && p in s.procs && (e.p != p || s.procs[p].InsDone?)
    ensures e.p != p ==> p in Apply(c, s, e).procs && Apply(c, s, e).procs[p] == s.procs[p]
    ensures s.procs[p].InsDone? ==> e.p != p
  {
    hide Live, Dead, Vacuumed, AddTo;
  }

  lemma {:induction false} PutsAlong(c: Config, s: State, es: seq<Event>, p: Pid, t: Tuple)
    requires c.Valid() && Inv(c, s) && ValidRun(c, s, es) && p in s.procs
    requires Inserting(s.procs[p], t) || s.procs[p].InsDone?
    ensures var end := Run(c, s, es);
            && p in end.procs && (Inserting(end.procs[p], t) || end.procs[p].InsDone?)
            && (s.procs[p].InsDone? ==> end.procs[p].InsDone?)
            && Puts(c, s, es, p, t) == if end.procs[p].InsDone? && !s.procs[p].InsDone? then 1 else 0
    decreases |es|
  {
    hide Inv, Apply, Places, Enabled, Inserting;
    if es != [] {
      var e := es[0];
      InvKept(c, s, e);
      NotBoth(s.procs[p], t);
      if e.p == p && !s.procs[p].InsDone? { InserterStep(c, s, e, t); } else { DoneStaysDone(c, s, e, p); }
      PutsAlong(c, Apply(c, s, e), es[1..], p, t);
    }
  }

  lemma {:induction false} NotBoth(proc: Proc, t: Tuple)
    ensures Inserting(proc, t) ==> !proc.InsDone?
  {
  }

  /** An insertion that ends has put its tuple on exactly one page, exactly once, and one that has not ended has not
      yet, under any interleaving. */
  lemma {:induction false} InsertIsOnce(c: Config, s: State, p: Pid, t: Tuple, es: seq<Event>)
    requires c.Valid() && Inv(c, s) && Enabled(c, s, BeginInsert(p, t))
    requires ValidRun(c, Apply(c, s, BeginInsert(p, t)), es)
    ensures var started := Apply(c, s, BeginInsert(p, t));
            var end := Run(c, started, es);
            p in end.procs && Puts(c, started, es, p, t) == if end.procs[p].InsDone? then 1 else 0
  {
    hide Inv;
    InvKept(c, s, BeginInsert(p, t));
    PutsAlong(c, Apply(c, s, BeginInsert(p, t)), es, p, t);
  }

  // ----- progress -----

  predicate Finished(proc: Proc) {
    proc.InsDone? || proc.VacDone? || proc.ScanDone?
  }

  /** The process that holds the metapage can always go on, and when nobody holds it every
      unfinished process can: no deadlock, and no step is undefined. */
  lemma {:induction false} NoDeadlock(c: Config, s: State, p: Pid) returns (e: Event)
    requires c.Valid() && Inv(c, s) && p in s.procs && !Finished(s.procs[p])
    requires s.holder.None? || s.holder == Some(p)
    ensures e.p == p && Enabled(c, s, e)
  {
    hide Balanced;
    assert GoodProc(c, s, p);
    match s.procs[p]
    case InsStart(_) => e := ReadMeta(p);
    case InsTry(_, _) => e := TryFirst(p);
    case InsWantMeta(_, _) => e := LockMeta(p);
    case InsLoop(_, n) =>
      assert n < s.meta.nEnd ==> Named(s, s.meta.notFull[n]);
      e := TryNext(p);
    case InsNew(_) => e := Extend(p);
    case InsExtended(_, _) => e := FillExtended(p);
    case Vac(blk, npages, _, _) => e := if blk < npages then VacuumPage(p) else VacuumMeta(p);
    case Scan(_, _, _, _) => e := ScanPage(p);
  }

  // ----- scans -----

  /** The tuple is on the page now and after every event of the run. */
  predicate Throughout(c: Config, s: State, es: seq<Event>, b: nat, t: Tuple)
    requires ValidRun(c, s, es)
    decreases |es|
  {
    && b < |s.pages| && t in Tuples(s.pages[b])
    && (es == [] || Throughout(c, Apply(c, s, es[0]), es[1..], b, t))
  }

  /** The scan has found the tuple or has not yet come to its page. */
  ghost predicate WillFind(s: State, p: Pid, b: nat, t: Tuple) {
    && p in s.procs
    && match s.procs[p]
       case Scan(blk, npages, sign, result) => t.heap in result || (blk <= b < npages && Inside(sign, t.sign))
       case ScanDone(result) => t.heap in result
       case _ => false
  }

  lemma {:induction false} WillFindKept(c: Config, s: State, e: Event, p: Pid, b: nat, t: Tuple)
    requires c.Valid() && Inv(c, s) && Enabled(c, s, e) && WillFind(s, p, b, t)
    requires b < |s.pages| && t in Tuples(s.pages[b])
    ensures WillFind(Apply(c, s, e), p, b, t)
  {
    hide Balanced, Live, Dead, Vacuumed, GoodMeta, AddTo, Inside, GoodProc;
    if e.p == p {
      assert e.ScanPage?;
      assert GoodPage(c, s.pages[b]);
      assert s.procs[p].blk == b && Inside(s.procs[p].sign, t.sign) ==> t.heap in Matching(s.pages[b], s.procs[p].sign);
    }
  }

  lemma {:induction false} WillFindAlong(c: Config, s: State, es: seq<Event>, p: Pid, b: nat, t: Tuple)
    requires c.Valid() && Inv(c, s) && ValidRun(c, s, es) && Throughout(c, s, es, b, t) && WillFind(s, p, b, t)
    ensures WillFind(Run(c, s, es), p, b, t)
    decreases |es|
  {
    hide Inv, Apply, WillFind;
    if es != [] {
      InvKept(c, s, es[0]);
      WillFindKept(c, s, es[0], p, b, t);
      WillFindAlong(c, Apply(c, s, es[0]), es[1..], p, b, t);
    }
  }

  /** A scan returns every tuple whose signature matches and that stays in the index from
      the start of the scan to its end, whatever else goes on. */
  lemma {:induction false} ScanIsComplete(c: Config, s: State, p: Pid, sign: Signature, es: seq<Event>,
                                          b: nat, t: Tuple)
    requires c.Valid() && Inv(c, s) && Enabled(c, s, BeginScan(p, sign))
    requires ValidRun(c, Apply(c, s, BeginScan(p, sign)), es)
    requires Throughout(c, Apply(c, s, BeginScan(p, sign)), es, b, t) && Inside(sign, t.sign)
    requires var end := Run(c, Apply(c, s, BeginScan(p, sign)), es); p in end.procs && end.procs[p].ScanDone?
    ensures t.heap in Run(c, Apply(c, s, BeginScan(p, sign)), es).procs[p].result
  {
    var started := Apply(c, s, BeginScan(p, sign));
    InvKept(c, s, BeginScan(p, sign));
    assert GoodPage(c, started.pages[b]);
    assert b >= 1 by { assert started.pages[0].MetaPage?; }
    assert WillFind(started, p, b, t);
    WillFindAlong(c, started, es, p, b, t);
  }

  /** The tuples on the pages that a scan may return at this moment. */
  ghost predicate OnAPage(s: State, sign: Signature, heap: int) {
    exists b, t :: 0 <= b < |s.pages| && t in Tuples(s.pages[b]) && t.heap == heap && Inside(sign, t.sign)
  }

  /** At some moment of the run, while the scan was at work, such a tuple was on a page. */
  ghost predicate SeenBy(c: Config, s: State, es: seq<Event>, p: Pid, sign: Signature, heap: int)
    requires ValidRun(c, s, es)
    decreases |es|
  {
    || (p in s.procs && s.procs[p].Scan? && OnAPage(s, sign, heap))
    || (es != [] && SeenBy(c, Apply(c, s, es[0]), es[1..], p, sign, heap))
  }

  function Result(proc: Proc): set<int> { if proc.Scan? || proc.ScanDone? then proc.result else {} }

  /** One event adds to the result of a scan only what is on a page. */
  lemma {:induction false} ScanStep(c: Config, s: State, e: Event, p: Pid, sign: Signature, heap: int)
    requires Enabled(c, s, e) && p in s.procs && (s.procs[p].ScanDone? || (s.procs[p].Scan? && s.procs[p].sign == sign))
    ensures p in Apply(c, s, e).procs
    ensures var v, w := s.procs[p], Apply(c, s, e).procs[p];
            && (w.ScanDone? || (w.Scan? && w.sign == sign))
            && (heap in Result(w) && heap !in Result(v) ==> v.Scan? && OnAPage(s, sign, heap))
  {
    hide Live, Dead, Vacuumed, AddTo, Inside;
    if e.p == p && s.procs[p].Scan? && s.procs[p].blk < s.procs[p].npages {
      var page := s.pages[s.procs[p].blk];
      if heap in Matching(page, sign) {
        var t :| t in page.tuples && Inside(sign, t.sign) && t.heap == heap;
        assert t in Tuples(page);
      }
    }
  }

  lemma {:induction false} ResultIsSeen(c: Config, s: State, es: seq<Event>, p: Pid, sign: Signature, heap: int)
    requires ValidRun(c, s, es) && p in s.procs
    requires s.procs[p].ScanDone? || (s.procs[p].Scan? && s.procs[p].sign == sign)
    ensures var end := Run(c, s, es);
            p in end.procs &&
            (heap in Result(end.procs[p]) ==> heap in Result(s.procs[p]) || SeenBy(c, s, es, p, sign, heap))
    decreases |es|
  {
    hide Apply, OnAPage, Result;
    if es != [] {
      ScanStep(c, s, es[0], p, sign, heap);
      ResultIsSeen(c, Apply(c, s, es[0]), es[1..], p, sign, heap);
    }
  }

  /** A scan returns only heap addresses of tuples that were on a page while it was at work and whose signature contains
      its own. */
  lemma {:induction false} ScanIsSound(c: Config, s: State, p: Pid, sign: Signature, es: seq<Event>, heap: int)
    requires Enabled(c, s, BeginScan(p, sign)) && ValidRun(c, Apply(c, s, BeginScan(p, sign)), es)
    requires var end := Run(c, Apply(c, s, BeginScan(p, sign)), es);
             p in end.procs && end.procs[p].ScanDone? && heap in end.procs[p].result
    ensures SeenBy(c, Apply(c, s, BeginScan(p, sign)), es, p, sign, heap)
  {
    ResultIsSeen(c, Apply(c, s, BeginScan(p, sign)), es, p, sign, heap);
  }

  /** With the signatures that rows and scan keys get: a scan never misses a row that agrees
      with its keys and stays in the index. */
  lemma {:induction false} ScanFindsRow(c: Config, s: State, p: Pid, es: seq<Event>, b: nat, heap: int,
                                        o: Opts, row: seq<Option<int>>, keys: seq<ScanKey>)
    requires o.Valid() && Signable(o, row) && KeysOf(row, keys)
    requires GoodKeys(o, keys)
    requires c.Valid() && Inv(c, s)
    requires var scan := BeginScan(p, KeySign(o, keys, |keys|));
             && Enabled(c, s, scan) && ValidRun(c, Apply(c, s, scan), es)
             && Throughout(c, Apply(c, s, scan), es, b, Tuple(heap, RowSign(o, row, |row|)))
             && p in Run(c, Apply(c, s, scan), es).procs && Run(c, Apply(c, s, scan), es).procs[p].ScanDone?
    ensures heap in Run(c, Apply(c, s, BeginScan(p, KeySign(o, keys, |keys|))), es).procs[p].result
  {
    hide Inv, Apply, Run, ValidRun, Throughout, KeySign, RowSign;
    KeysInsideRow(o, row, keys, |keys|);
    ScanIsComplete(c, s, p, KeySign(o, keys, |keys|), es, b, Tuple(heap, RowSign(o, row, |row|)));
  }
}
