/**
 * One bloom page in memory: adding an item, compaction by bulk delete, and the page cache
 * of an index build.
 */
module BloomPages {
  import opened Options
  import opened BloomIndex

  class PageBuffer {
    var isNew: bool
    var deleted: bool
    var maxoff: nat
    const items: array<Tuple>

    constructor (cap: nat)
      requires cap > 0
      ensures Valid() && View() == New && items.Length == cap && fresh(items)
    {
      isNew, deleted, maxoff := true, false, 0;
      items := new Tuple[cap](i => Tuple(0, []));
    }

    ghost predicate Valid()
      reads this
    {
      items.Length > 0 && maxoff <= items.Length && (deleted ==> maxoff == 0)
    }

    function View(): Page
      requires maxoff <= items.Length
      reads this, items
    {
      if isNew then New else Data(deleted, items[..maxoff])
    }

    /** BloomInitPage */
    method Init()
      requires Valid()
      modifies this
      ensures Valid() && View() == Data(false, [])
    {
      isNew, deleted, maxoff := false, false, 0;
    }

    /** BloomPageAddItem */
    method AddItem(t: Tuple) returns (ok: bool)
      requires Valid() && !isNew && !deleted
      modifies this, items
      ensures Valid() && ok == (old(maxoff) < items.Length)
      ensures View() == if ok then Data(false, old(items[..maxoff]) + [t]) else old(View())
    {
      if maxoff == items.Length { return false; }
      items[maxoff] := t;
      maxoff := maxoff + 1;
      return true;
    }

    /** The part of blinsert done under the page's lock; a change that does not fit is not
        committed. */
    method TryInsert(c: Config, t: Tuple) returns (ok: bool)
      requires Valid() && c.cap == items.Length
      modifies this, items
      ensures Valid()
      ensures match AddTo(c, old(View()), t)
              case Some(page) => ok && View() == page
              case None => !ok && View() == old(View())
    {
      if isNew || deleted {
        Init();
      }
      ok := AddItem(t);
    }

    /** The page loop of blbulkdelete: live tuples move down over deleted ones. */
    method BulkDelete(dead: set<int>) returns (removed: nat)
      requires Valid()
      modifies this, items
      ensures Valid() && View() == Vacuumed(old(View()), dead)
      ensures removed == |Tuples(old(View()))| - |Tuples(View())|
    {
      if isNew || deleted { return 0; }
      ghost var all := items[..maxoff];
      var keep := Compact(items, maxoff, dead);
      LiveAndDead(all, dead);
      removed := maxoff - keep;
      if keep != maxoff {
        maxoff := keep;
        deleted := maxoff == 0;
      } else {
        LiveAll(all, dead);
      }
    }
  }

  /** itup runs over the tuples, keep is where the next live one goes. */
  method Compact(items: array<Tuple>, maxoff: nat, dead: set<int>) returns (keep: nat)
    requires maxoff <= items.Length
    modifies items
    ensures keep <= maxoff && items[..keep] == Live(old(items[..maxoff]), dead)
  {
    hide Live;
    ghost var all := items[..maxoff];
    keep := 0;
    LiveNone(dead);
    for itup := 0 to maxoff
      invariant keep <= itup
      invariant items[..keep] == Live(all[..itup], dead)
      invariant forall k :: itup <= k < maxoff ==> items[k] == all[k]
    {
      LiveSnoc(all[..itup], all[itup], dead);
      assert all[..itup] + [all[itup]] == all[..itup + 1];
      if items[itup].heap !in dead {
        if keep != itup {
          items[keep] := items[itup];
        }
        keep := keep + 1;
      }
    }
    assert all[..maxoff] == all;
  }

  lemma {:induction false} LiveNone(dead: set<int>)
    ensures Live([], dead) == []
  {
  }

  lemma {:induction false} LiveSnoc(ts: seq<Tuple>, t: Tuple, dead: set<int>)
    ensures Live(ts + [t], dead) == if t.heap in dead then Live(ts, dead) else Live(ts, dead) + [t]
  {
    if ts == [] {
      assert [t][1..] == [];
      assert ts + [t] == [t];
    } else {
      assert (ts + [t])[1..] == ts[1..] + [t];
      LiveSnoc(ts[1..], t, dead);
    }
  }

  /** If nothing was dropped, nothing changed. */
  lemma {:induction false} LiveAll(ts: seq<Tuple>, dead: set<int>)
    requires |Live(ts, dead)| == |ts|
    ensures Live(ts, dead) == ts
  {
    if ts != [] {
      LiveAndDead(ts[1..], dead);
      LiveAll(ts[1..], dead);
    }
  }

  lemma {:induction false} FlattenSnoc(pages: seq<seq<Tuple>>, page: seq<Tuple>)
    ensures Flatten(pages + [page]) == Flatten(pages) + page
  {
    assert (pages + [page])[..|pages|] == pages;
  }

  lemma {:induction false} FlattenNone()
    ensures Flatten([]) == []
  {
  }

  /** blbuild with bloomBuildCallback: tuples go to a cached page that is flushed when full.
      Every heap tuple is indexed, once and in order. */
  method Build(c: Config, heap: seq<Tuple>) returns (pages: seq<seq<Tuple>>)
    requires c.Valid()
    ensures BuiltFrom(c, heap, pages)
  {
    hide Flatten;
    pages := [];
    var cached: seq<Tuple> := [];
    FlattenNone();
    for i := 0 to |heap|
      invariant Flatten(pages) + cached == heap[..i]
      invariant |cached| <= c.cap && (i > 0 ==> cached != [])
      invariant forall k :: 0 <= k < |pages| ==> 0 < |pages[k]| <= c.cap
    {
      if |cached| < c.cap {
        cached := cached + [heap[i]];
      } else {
        FlattenSnoc(pages, cached);
        pages := pages + [cached];
        cached := [heap[i]];
      }
      assert heap[..i + 1] == heap[..i] + [heap[i]];
    }
    if |cached| > 0 {
      FlattenSnoc(pages, cached);
      pages := pages + [cached];
    }
    assert heap[..|heap|] == heap;
  }
}
