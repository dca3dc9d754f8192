/**
 * The bloom access method as concurrent processes.  Each event is what a backend does while
 * it holds one set of buffer locks; between events any other backend may run.  The free
 * space map is not trusted, so a recycled block may be any block number.
 */
module BloomIndex {
  import opened Options
  import opened BloomSignatures

  datatype Tuple = Tuple(heap: int, sign: Signature)

  /** Block 0 is the metapage; a page may be all zeroes, or hold tuples. */
  datatype Page = MetaPage | New | Data(deleted: bool, tuples: seq<Tuple>)

  /** notFullPage[nStart..nEnd] lists pages thought to have room. */
  datatype Meta = Meta(nStart: nat, nEnd: nat, notFull: seq<nat>)

  /** Tuples per page, and BloomMetaBlockN. */
  datatype Config = Config(cap: nat, blockN: nat) {
    predicate Valid() { cap >= 1 && blockN >= 1 }
  }

  datatype Proc =
    | InsStart(t: Tuple)
    | InsTry(t: Tuple, blk: nat)
    | InsWantMeta(t: Tuple, tried: Option<nat>)
    | InsLoop(t: Tuple, n: nat)
    | InsNew(t: Tuple)
    | InsExtended(t: Tuple, blk: nat)
    | InsDone
    | Vac(blk: nat, npages: nat, found: seq<nat>, dead: set<int>)
    | VacDone
    | Scan(blk: nat, npages: nat, sign: Signature, result: set<int>)
    | ScanDone(result: set<int>)

  type Pid = nat

  /** `inserted` and `removed` record history; no process reads them. */
  datatype State = State(meta: Meta, pages: seq<Page>, holder: Option<Pid>, procs: map<Pid, Proc>,
                         inserted: multiset<Tuple>, removed: multiset<Tuple>)

  datatype Event =
    | BeginInsert(p: Pid, t: Tuple)
    | ReadMeta(p: Pid)
    | TryFirst(p: Pid)
    | LockMeta(p: Pid)
    | TryNext(p: Pid)
    | Recycle(p: Pid, blk: nat)
    | Extend(p: Pid)
    | FillExtended(p: Pid)
    | BeginVacuum(p: Pid, dead: set<int>)
    | VacuumPage(p: Pid)
    | VacuumMeta(p: Pid)
    | BeginScan(p: Pid, sign: Signature)
    | ScanPage(p: Pid)

  function Flatten(pages: seq<seq<Tuple>>): seq<Tuple> {
    if pages == [] then [] else Flatten(pages[..|pages| - 1]) + pages[|pages| - 1]
  }

  /** What blbuild writes behind the metapage for the tuples of a heap: no page is empty. */
  predicate BuiltFrom(c: Config, heap: seq<Tuple>, pages: seq<seq<Tuple>>) {
    Flatten(pages) == heap && forall i :: 0 <= i < |pages| ==> 0 < |pages[i]| <= c.cap
  }

  /** An index just built, with no process at work on it. */
  function Built(c: Config, pages: seq<seq<Tuple>>): State {
    State(Meta(0, 0, seq(c.blockN, i => 0)), [MetaPage] + DataPages(pages), None, map[],
          multiset(Flatten(pages)), multiset{})
  }

  function DataPages(pages: seq<seq<Tuple>>): seq<Page> {
    seq(|pages|, i requires 0 <= i < |pages| => Data(false, pages[i]))
  }

  function Tuples(page: Page): seq<Tuple> {
    if page.Data? then page.tuples else []
  }

  /** PageIsNew(page) || BloomPageIsDeleted(page) */
  predicate Reusable(page: Page) {
    page.New? || (page.Data? && page.deleted)
  }

  /** BloomInitPage where the page is new or deleted, then BloomPageAddItem. */
  function AddTo(c: Config, page: Page, t: Tuple): Option<Page> {
    if page.MetaPage? then None
    else if Reusable(page) then Some(Data(false, [t]))
    else if |page.tuples| < c.cap then Some(Data(false, page.tuples + [t]))
    else None
  }

  function Live(ts: seq<Tuple>, dead: set<int>): seq<Tuple> {
    if ts == [] then []
    else if ts[0].heap in dead then Live(ts[1..], dead)
    else [ts[0]] + Live(ts[1..], dead)
  }

  function Dead(ts: seq<Tuple>, dead: set<int>): seq<Tuple> {
    if ts == [] then []
    else if ts[0].heap in dead then [ts[0]] + Dead(ts[1..], dead)
    else Dead(ts[1..], dead)
  }

  lemma {:induction false} LiveMember(ts: seq<Tuple>, dead: set<int>, t: Tuple)
    ensures t in Live(ts, dead) <==> t in ts && t.heap !in dead
  {
    if ts != [] { LiveMember(ts[1..], dead, t); }
  }

  /** What blbulkdelete leaves of a page. */
  function Vacuumed(page: Page, dead: set<int>): Page {
    if !page.Data? || page.deleted then page
    else
      var live := Live(page.tuples, dead);
      Data(live == [] && page.tuples != [], live)
  }

  /** A page is given up for reuse exactly when it had tuples and all of them were dead. */
  lemma {:induction false} GivenUpIff(tuples: seq<Tuple>, dead: set<int>)
    ensures var page := Vacuumed(Data(false, tuples), dead);
            && (page.deleted <==> tuples != [] && forall i :: 0 <= i < |tuples| ==> tuples[i].heap in dead)
            && forall t :: t in page.tuples <==> t in tuples && t.heap !in dead
  {
    forall t ensures t in Live(tuples, dead) <==> t in tuples && t.heap !in dead { LiveMember(tuples, dead, t); }
    if i :| 0 <= i < |tuples| && tuples[i].heap !in dead { assert tuples[i] in Live(tuples, dead); }
    if Live(tuples, dead) != [] { assert Live(tuples, dead)[0] in tuples; }
  }

  function Matching(page: Page, sign: Signature): set<int> {
    if page.Data? && !page.deleted then set t | t in page.tuples && Inside(sign, t.sign) :: t.heap else {}
  }

  predicate Enabled(c: Config, s: State, e: Event) {
    match e
    case BeginInsert(p, t) => p !in s.procs
    case ReadMeta(p) => p in s.procs && s.procs[p].InsStart? && s.holder.None?
    case TryFirst(p) => p in s.procs && s.procs[p].InsTry? && s.procs[p].blk < |s.pages|
    case LockMeta(p) => p in s.procs && s.procs[p].InsWantMeta? && s.holder.None?
    case TryNext(p) =>
      p in s.procs && s.procs[p].InsLoop? &&
      (s.procs[p].n < s.meta.nEnd ==>
         s.procs[p].n < |s.meta.notFull| && s.meta.notFull[s.procs[p].n] < |s.pages|)
    case Recycle(p, blk) => p in s.procs && s.procs[p].InsNew? && blk < |s.pages| && Reusable(s.pages[blk])
    case Extend(p) => p in s.procs && s.procs[p].InsNew?
    case FillExtended(p) => p in s.procs && s.procs[p].InsExtended? && s.procs[p].blk < |s.pages|
    case BeginVacuum(p, dead) => p !in s.procs
    case VacuumPage(p) => p in s.procs && s.procs[p].Vac? && s.procs[p].blk < s.procs[p].npages <= |s.pages|
    case VacuumMeta(p) =>
      p in s.procs && s.procs[p].Vac? && s.procs[p].blk >= s.procs[p].npages && s.holder.None? &&
      |s.procs[p].found| <= |s.meta.notFull|
    case BeginScan(p, sign) => p !in s.procs
    case ScanPage(p) =>
      p in s.procs && s.procs[p].Scan? && (s.procs[p].blk < s.procs[p].npages ==> s.procs[p].npages <= |s.pages|)
  }

  function SetProc(s: State, p: Pid, proc: Proc): State {
    s.(procs := s.procs[p := proc])
  }

  /** Commit a page that now also holds t, and end the insertion. */
  function Inserted(s: State, p: Pid, blk: nat, page: Page, t: Tuple): State
    requires blk < |s.pages|
  {
    s.(pages := s.pages[blk := page], procs := s.procs[p := InsDone], inserted := s.inserted + multiset{t})
  }

  /** The new page becomes the only entry of notFullPage; the metapage lock is released. */
  function OnlyEntry(meta: Meta, blk: nat): Meta {
    Meta(0, 1, if |meta.notFull| == 0 then [] else meta.notFull[0 := blk])
  }

  function Apply(c: Config, s: State, e: Event): State
    requires Enabled(c, s, e)
  {
    match e
    case BeginInsert(p, t) => SetProc(s, p, InsStart(t))
    case ReadMeta(p) =>
      var t := s.procs[p].t;
      if s.meta.nStart < s.meta.nEnd && s.meta.nStart < |s.meta.notFull|
      then SetProc(s, p, InsTry(t, s.meta.notFull[s.meta.nStart]))
      else SetProc(s, p, InsWantMeta(t, None))
    case TryFirst(p) =>
      var InsTry(t, blk) := s.procs[p];
      var page := AddTo(c, s.pages[blk], t);
      if page.Some? then Inserted(s, p, blk, page.value, t) else SetProc(s, p, InsWantMeta(t, Some(blk)))
    case LockMeta(p) =>
      var InsWantMeta(t, tried) := s.procs[p];
      var n := s.meta.nStart;
      var skip := n < s.meta.nEnd && n < |s.meta.notFull| && tried == Some(s.meta.notFull[n]);
      SetProc(s, p, InsLoop(t, if skip then n + 1 else n)).(holder := Some(p))
    case TryNext(p) =>
      var InsLoop(t, n) := s.procs[p];
      if n >= s.meta.nEnd then SetProc(s, p, InsNew(t))
      else
        var blk := s.meta.notFull[n];
        var page := AddTo(c, s.pages[blk], t);
        if page.None? then SetProc(s, p, InsLoop(t, n + 1))
        else Inserted(s, p, blk, page.value, t).(holder := None, meta := s.meta.(nStart := n))
    case Recycle(p, blk) =>
      Inserted(s, p, blk, Data(false, [s.procs[p].t]), s.procs[p].t).(holder := None, meta := OnlyEntry(s.meta, blk))
    case Extend(p) =>
      SetProc(s.(pages := s.pages + [New]), p, InsExtended(s.procs[p].t, |s.pages|))
    case FillExtended(p) =>
      var InsExtended(t, blk) := s.procs[p];
      Inserted(s, p, blk, Data(false, [t]), t).(holder := None, meta := OnlyEntry(s.meta, blk))
    case BeginVacuum(p, dead) => SetProc(s, p, Vac(1, |s.pages|, [], dead))
    case VacuumPage(p) =>
      var Vac(blk, npages, found, dead) := s.procs[p];
      var page := Vacuumed(s.pages[blk], dead);
      var listed := page.Data? && page.tuples != [] && |page.tuples| < c.cap && |found| < c.blockN;
      s.(pages := s.pages[blk := page],
         procs := s.procs[p := Vac(blk + 1, npages, if listed then found + [blk] else found, dead)],
         removed := s.removed + multiset(if Reusable(s.pages[blk]) then [] else Dead(Tuples(s.pages[blk]), dead)))
    case VacuumMeta(p) =>
      var found := s.procs[p].found;
      SetProc(s.(meta := Meta(0, |found|, found + s.meta.notFull[|found|..])), p, VacDone)
    case BeginScan(p, sign) => SetProc(s, p, Scan(1, |s.pages|, sign, {}))
    case ScanPage(p) =>
      var Scan(blk, npages, sign, result) := s.procs[p];
      if blk < npages then SetProc(s, p, Scan(blk + 1, npages, sign, result + Matching(s.pages[blk], sign)))
      else SetProc(s, p, ScanDone(result))
  }

  // ----- the invariant -----

  predicate GoodPage(c: Config, page: Page) {
    page.Data? ==> |page.tuples| <= c.cap && (page.deleted ==> page.tuples == [])
  }

  /** A block that some list may name: it has been initialized, and never becomes new again. */
  predicate Named(s: State, blk: nat) {
    blk < |s.pages| && s.pages[blk].Data?
  }

  predicate HoldsMeta(proc: Proc) {
    proc.InsLoop? || proc.InsNew? || proc.InsExtended?
  }

  predicate GoodProc(c: Config, s: State, p: Pid)
    requires p in s.procs
  {
    && (HoldsMeta(s.procs[p]) <==> s.holder == Some(p))
    && match s.procs[p]
       case InsTry(_, blk) => Named(s, blk)
       case InsLoop(_, n) => s.meta.nStart <= n <= s.meta.nEnd
       case InsExtended(_, blk) => blk < |s.pages| && s.pages[blk].New?
       case Vac(blk, npages, found, _) =>
         1 <= blk && npages <= |s.pages| && |found| <= c.blockN && forall i :: 0 <= i < |found| ==> Named(s, found[i])
       case Scan(blk, npages, _, _) => 1 <= blk && npages <= |s.pages|
       case _ => true
  }

  predicate GoodMeta(c: Config, s: State) {
    && s.meta.nStart <= s.meta.nEnd <= c.blockN == |s.meta.notFull|
    && forall i :: 0 <= i < s.meta.nEnd ==> Named(s, s.meta.notFull[i])
  }

  predicate GoodPages(c: Config, s: State) {
    && |s.pages| >= 1 && s.pages[0].MetaPage?
    && forall b :: 0 <= b < |s.pages| ==> GoodPage(c, s.pages[b]) && (s.pages[b].MetaPage? ==> b == 0)
  }

  /** Nothing is lost or doubled: what was inserted is on a page or was removed by vacuum. */
  ghost predicate Balanced(s: State) {
    AllTuples(s.pages) + s.removed == s.inserted
  }

  ghost predicate Inv(c: Config, s: State) {
    && GoodPages(c, s) && GoodMeta(c, s) && Balanced(s)
    && (forall p :: p in s.procs ==> GoodProc(c, s, p))
    && (s.holder.Some? ==> s.holder.value in s.procs)
  }

  ghost function AllTuples(pages: seq<Page>): multiset<Tuple> {
    if pages == [] then multiset{} else multiset(Tuples(pages[0])) + AllTuples(pages[1..])
  }

  // ----- counting tuples -----

  lemma {:induction false} ReplacePage(pages: seq<Page>, blk: nat, page: Page)
    requires blk < |pages|
    ensures AllTuples(pages[blk := page]) + multiset(Tuples(pages[blk])) == AllTuples(pages) + multiset(Tuples(page))
    decreases |pages|
  {
    var q := pages[blk := page];
    if blk == 0 {
      assert q[1..] == pages[1..];
    } else {
      assert q[1..] == pages[1..][blk - 1 := page];
      ReplacePage(pages[1..], blk - 1, page);
      Shuffle(multiset(Tuples(pages[0])), AllTuples(q[1..]), multiset(Tuples(pages[blk])),
              AllTuples(pages[1..]), multiset(Tuples(page)));
    }
  }

  lemma {:induction false} Shuffle<T>(h: multiset<T>, a: multiset<T>, x: multiset<T>, b: multiset<T>, y: multiset<T>)
    requires a + x == b + y
    ensures (h + a) + x == (h + b) + y
  {
    assert (h + a) + x == h + (a + x) && (h + b) + y == h + (b + y);
  }

  lemma {:induction false} Cancel<T>(a: multiset<T>, b: multiset<T>, c: multiset<T>)
    requires a + c == b + c
    ensures a == b
  {
    assert a == (a + c) - c && b == (b + c) - c;
  }

  /** A page gains one tuple: so does the index. */
  lemma {:induction false} AddedTuple(pages: seq<Page>, blk: nat, page: Page, t: Tuple)
    requires blk < |pages| && Tuples(page) == Tuples(pages[blk]) + [t]
    ensures AllTuples(pages[blk := page]) == AllTuples(pages) + multiset{t}
  {
    ReplacePage(pages, blk, page);
    var old' := multiset(Tuples(pages[blk]));
    assert multiset(Tuples(page)) == old' + multiset{t};
    assert AllTuples(pages) + (old' + multiset{t}) == (AllTuples(pages) + multiset{t}) + old';
    Cancel(AllTuples(pages[blk := page]), AllTuples(pages) + multiset{t}, old');
  }

  lemma {:induction false} AppendNew(pages: seq<Page>)
    ensures AllTuples(pages + [New]) == AllTuples(pages)
  {
    if pages == [] {
      assert pages + [New] == [New];
      assert [New][1..] == [];
    } else {
      assert (pages + [New])[1..] == pages[1..] + [New];
      AppendNew(pages[1..]);
    }
  }

  lemma {:induction false} LiveAndDead(ts: seq<Tuple>, dead: set<int>)
    ensures multiset(Live(ts, dead)) + multiset(Dead(ts, dead)) == multiset(ts)
    ensures |Live(ts, dead)| <= |ts|
  {
    if ts != [] {
      LiveAndDead(ts[1..], dead);
      assert ts == [ts[0]] + ts[1..];
    }
  }

  // ----- what stays true of the processes that do not move -----

  /** Initialized pages stay initialized; blocks are only added. */
  predicate Grows(s: State, s': State) {
    |s.pages| <= |s'.pages| && forall b :: 0 <= b < |s.pages| && s.pages[b].Data? ==> s'.pages[b].Data?
  }

  lemma {:induction false} ProcKept(c: Config, s: State, s': State, q: Pid)
    requires q in s.procs && q in s'.procs && s.procs[q] == s'.procs[q] && GoodProc(c, s, q) && Grows(s, s')
    requires s'.holder == Some(q) <==> s.holder == Some(q)
    requires HoldsMeta(s.procs[q]) ==>
               s'.meta == s.meta && forall b :: 0 <= b < |s.pages| ==> s.pages[b].New? ==> s'.pages[b].New?
    ensures GoodProc(c, s', q)
  {
    assert forall b :: Named(s, b) ==> Named(s', b);
  }

  lemma {:induction false} OthersKept(c: Config, s: State, s': State, p: Pid)
    requires forall q :: q in s.procs ==> GoodProc(c, s, q)
    requires s'.procs.Keys == s.procs.Keys + {p} && forall q :: q in s.procs && q != p ==> s'.procs[q] == s.procs[q]
    requires Grows(s, s')
    requires forall q :: q in s.procs && q != p ==> (s'.holder == Some(q) <==> s.holder == Some(q))
    requires s'.meta == s.meta || s.holder.None? || s.holder == Some(p)
    requires (forall b :: 0 <= b < |s.pages| ==> s.pages[b].New? ==> s'.pages[b].New?) ||
             s.holder.None? || s.holder == Some(p)
    ensures forall q :: q in s'.procs && q != p ==> GoodProc(c, s', q)
  {
    forall q | q in s'.procs && q != p ensures GoodProc(c, s', q) {
      ProcKept(c, s, s', q);
    }
  }

  lemma {:induction false} MetaKept(c: Config, s: State, s': State)
    requires GoodMeta(c, s) && s'.meta == s.meta && Grows(s, s')
    ensures GoodMeta(c, s')
  {
    assert forall b :: Named(s, b) ==> Named(s', b);
  }

  // ----- every event keeps the invariant -----

  lemma {:induction false} BeginKept(c: Config, s: State, e: Event)
    requires c.Valid() && Inv(c, s) && Enabled(c, s, e)
    requires e.BeginInsert? || e.BeginVacuum? || e.BeginScan? || e.ScanPage?
    ensures Inv(c, Apply(c, s, e))
  {
    hide AllTuples, Balanced, Live, Dead, Vacuumed, AddTo;
    var s' := Apply(c, s, e);
    SameBalance(s, s');
    OthersKept(c, s, s', e.p);
    MetaKept(c, s, s');
    assert GoodProc(c, s', e.p);
  }

  lemma {:induction false} MetaReadKept(c: Config, s: State, e: Event)
    requires c.Valid() && Inv(c, s) && Enabled(c, s, e)
    requires e.ReadMeta? || e.LockMeta?
    ensures Inv(c, Apply(c, s, e))
  {
    hide AllTuples, Balanced;
    var s' := Apply(c, s, e);
    SameBalance(s, s');
    assert GoodProc(c, s, e.p);
    OthersKept(c, s, s', e.p);
    MetaKept(c, s, s');
    assert GoodProc(c, s', e.p);
  }

  lemma {:induction false} TryFirstKept(c: Config, s: State, e: Event)
    requires c.Valid() && Inv(c, s) && Enabled(c, s, e) && e.TryFirst?
    ensures Inv(c, Apply(c, s, e))
  {
    hide AllTuples, Balanced;
    var s' := Apply(c, s, e);
    var InsTry(t, blk) := s.procs[e.p];
    assert GoodProc(c, s, e.p);
    var page := AddTo(c, s.pages[blk], t);
    if page.Some? {
      AddedTuple(s.pages, blk, page.value, t);
      BalanceKept(s, s', t);
    } else {
      SameBalance(s, s');
    }
    assert Grows(s, s');
    OthersKept(c, s, s', e.p);
    MetaKept(c, s, s');
    assert GoodProc(c, s', e.p);
  }

  lemma {:induction false} SameBalance(s: State, s': State)
    requires Balanced(s) && s'.pages == s.pages && s'.removed == s.removed && s'.inserted == s.inserted
    ensures Balanced(s')
  {
  }

  lemma {:induction false} BalanceKept(s: State, s': State, t: Tuple)
    requires Balanced(s)
    requires AllTuples(s'.pages) == AllTuples(s.pages) + multiset{t}
    requires s'.removed == s.removed && s'.inserted == s.inserted + multiset{t}
    ensures Balanced(s')
  {
    var a, r, m := AllTuples(s.pages), s.removed, multiset{t};
    assert (a + m) + r == (a + r) + m;
  }

  lemma {:induction false} TryNextKept(c: Config, s: State, e: Event)
    requires c.Valid() && Inv(c, s) && Enabled(c, s, e) && e.TryNext?
    ensures Inv(c, Apply(c, s, e))
  {
    hide AllTuples, Balanced;
    var s' := Apply(c, s, e);
    var InsLoop(t, n) := s.procs[e.p];
    assert GoodProc(c, s, e.p);
    if n < s.meta.nEnd {
      var blk := s.meta.notFull[n];
      assert Named(s, blk);
      var page := AddTo(c, s.pages[blk], t);
      if page.Some? {
        AddedTuple(s.pages, blk, page.value, t);
        BalanceKept(s, s', t);
      } else {
        SameBalance(s, s');
      }
    } else {
      SameBalance(s, s');
    }
    assert Grows(s, s');
    assert forall b :: Named(s, b) ==> Named(s', b);
    OthersKept(c, s, s', e.p);
    assert GoodProc(c, s', e.p);
  }

  /** Filling a reusable page that the process owns by holding the metapage lock. */
  lemma {:induction false} NewPageKept(c: Config, s: State, e: Event)
    requires c.Valid() && Inv(c, s) && Enabled(c, s, e) && (e.Recycle? || e.FillExtended?)
    ensures Inv(c, Apply(c, s, e))
  {
    assert GoodProc(c, s, e.p);
    var blk := if e.Recycle? then e.blk else s.procs[e.p].blk;
    FilledKept(c, s, Apply(c, s, e), e.p, blk, s.procs[e.p].t);
  }

  lemma {:induction false} FilledKept(c: Config, s: State, s': State, p: Pid, blk: nat, t: Tuple)
    requires c.Valid() && Inv(c, s) && p in s.procs && s.holder == Some(p)
    requires blk < |s.pages| && Reusable(s.pages[blk])
    requires s' == Inserted(s, p, blk, Data(false, [t]), t).(holder := None, meta := OnlyEntry(s.meta, blk))
    ensures Inv(c, s')
  {
    hide AllTuples, Balanced;
    assert GoodPage(c, s.pages[blk]);
    AddedTuple(s.pages, blk, Data(false, [t]), t);
    BalanceKept(s, s', t);
    assert Grows(s, s');
    OthersKept(c, s, s', p);
    assert Named(s', blk);
    assert GoodProc(c, s', p);
  }

  lemma {:induction false} ExtendKept(c: Config, s: State, e: Event)
    requires c.Valid() && Inv(c, s) && Enabled(c, s, e) && e.Extend?
    ensures Inv(c, Apply(c, s, e))
  {
    hide AllTuples;
    var s' := Apply(c, s, e);
    assert GoodProc(c, s, e.p);
    AppendNew(s.pages);
    OthersKept(c, s, s', e.p);
    MetaKept(c, s, s');
    assert GoodProc(c, s', e.p);
  }

  lemma {:induction false} VacuumedPage(c: Config, page: Page, dead: set<int>)
    requires GoodPage(c, page)
    ensures GoodPage(c, Vacuumed(page, dead))
    ensures Vacuumed(page, dead).Data? <==> page.Data?
    ensures Vacuumed(page, dead).New? <==> page.New?
    ensures Tuples(Vacuumed(page, dead)) == if Reusable(page) then [] else Live(Tuples(page), dead)
    ensures multiset(Tuples(Vacuumed(page, dead))) +
            multiset(if Reusable(page) then [] else Dead(Tuples(page), dead)) ==
            multiset(Tuples(page))
  {
    LiveAndDead(Tuples(page), dead);
  }

  lemma {:induction false} PageReplaced(c: Config, s: State, s': State, blk: nat, page: Page)
    requires GoodPages(c, s) && 1 <= blk < |s.pages| && s'.pages == s.pages[blk := page]
    requires GoodPage(c, page) && (page.Data? <==> s.pages[blk].Data?) && (page.New? <==> s.pages[blk].New?)
    ensures GoodPages(c, s') && Grows(s, s')
    ensures forall b :: 0 <= b < |s.pages| ==> s.pages[b].New? ==> s'.pages[b].New?
  {
    hide GoodPage;
  }

  lemma {:induction false} VacuumPageKept(c: Config, s: State, e: Event)
    requires c.Valid() && Inv(c, s) && Enabled(c, s, e) && e.VacuumPage?
    ensures Inv(c, Apply(c, s, e))
  {
    hide AllTuples, Balanced, Vacuumed, Live, Dead, Tuples, Reusable, GoodPages, GoodMeta, Grows;
    var s' := Apply(c, s, e);
    var Vac(blk, npages, found, dead) := s.procs[e.p];
    assert GoodProc(c, s, e.p);
    assert GoodPage(c, s.pages[blk]) by { GoodAt(c, s, blk); }
    VacuumedPage(c, s.pages[blk], dead);
    var page := Vacuumed(s.pages[blk], dead);
    Removed(s, s', blk, page, multiset(if Reusable(s.pages[blk]) then [] else Dead(Tuples(s.pages[blk]), dead)));
    PageReplaced(c, s, s', blk, page);
    OthersKept(c, s, s', e.p);
    MetaKept(c, s, s');
    VacuumerKept(c, s, s', e.p);
  }

  lemma {:induction false} GoodAt(c: Config, s: State, blk: nat)
    requires GoodPages(c, s) && blk < |s.pages|
    ensures GoodPage(c, s.pages[blk])
  {
  }

  lemma {:induction false} VacuumerKept(c: Config, s: State, s': State, p: Pid)
    requires p in s.procs && p in s'.procs && s.procs[p].Vac? && GoodProc(c, s, p) && Grows(s, s')
    requires s'.holder == s.holder && s'.procs[p].Vac? && s'.procs[p].npages == s.procs[p].npages
    requires s'.procs[p].blk == s.procs[p].blk + 1
    requires s'.procs[p].found == s.procs[p].found ||
             (|s.procs[p].found| < c.blockN && Named(s', s.procs[p].blk) &&
              s'.procs[p].found == s.procs[p].found + [s.procs[p].blk])
    ensures GoodProc(c, s', p)
  {
    assert forall b :: Named(s, b) ==> Named(s', b);
  }

  lemma {:induction false} Removed(s: State, s': State, blk: nat, page: Page, gone: multiset<Tuple>)
    requires blk < |s.pages| && s'.pages == s.pages[blk := page]
    requires Balanced(s)
    requires multiset(Tuples(page)) + gone == multiset(Tuples(s.pages[blk]))
    requires s'.removed == s.removed + gone && s'.inserted == s.inserted
    ensures Balanced(s')
  {
    hide AllTuples;
    ReplacePage(s.pages, blk, page);
    var a, a', new' := AllTuples(s.pages), AllTuples(s'.pages), multiset(Tuples(page));
    assert (a' + gone) + new' == a' + (new' + gone);
    Cancel(a' + gone, a, new');
    assert a' + (s.removed + gone) == (a' + gone) + s.removed;
  }

  lemma {:induction false} VacuumMetaKept(c: Config, s: State, e: Event)
    requires c.Valid() && Inv(c, s) && Enabled(c, s, e) && e.VacuumMeta?
    ensures Inv(c, Apply(c, s, e))
  {
    hide AllTuples, Balanced;
    var s' := Apply(c, s, e);
    SameBalance(s, s');
    assert GoodProc(c, s, e.p);
    OthersKept(c, s, s', e.p);
    var found := s.procs[e.p].found;
    assert forall i :: 0 <= i < |found| ==> s'.meta.notFull[i] == found[i] && Named(s', found[i]);
    assert GoodProc(c, s', e.p);
  }

  /** Every event, by any process at any time, keeps the invariant. */
  lemma {:induction false} InvKept(c: Config, s: State, e: Event)
    requires c.Valid() && Inv(c, s) && Enabled(c, s, e)
    ensures Inv(c, Apply(c, s, e))
  {
    hide Inv, Apply;
    match e
    case BeginInsert(_, _) => BeginKept(c, s, e);
    case ReadMeta(_) => MetaReadKept(c, s, e);
    case TryFirst(_) => TryFirstKept(c, s, e);
    case LockMeta(_) => MetaReadKept(c, s, e);
    case TryNext(_) => TryNextKept(c, s, e);
    case Recycle(_, _) => NewPageKept(c, s, e);
    case Extend(_) => ExtendKept(c, s, e);
    case FillExtended(_) => NewPageKept(c, s, e);
    case BeginVacuum(_, _) => BeginKept(c, s, e);
    case VacuumPage(_) => VacuumPageKept(c, s, e);
    case VacuumMeta(_) => VacuumMetaKept(c, s, e);
    case BeginScan(_, _) => BeginKept(c, s, e);
    case ScanPage(_) => BeginKept(c, s, e);
  }
}
