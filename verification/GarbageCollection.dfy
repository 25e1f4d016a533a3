/** Section garbage collection: marking what the entry sections reach, then stripping the rest. */
module GarbageCollection {
  import opened Wrappers
  import opened Reachability

  datatype Kind =
    | Common | Debug | Discard | DynamicRelocation | EhFrame | EhFrameHdr | Error | Exclude | GCCExceptTable
    | GNUProperty | Group | Ignore | Internal | LinkOnce | MergeStr | MetaData | NamePool | Note | Null
    | OutputSectData | Regular | Relocation | SFrame | StackNote | SymbolVersion | Target | Timing | Version

  class Section {
    const bitcode: bool
    const common: bool
    const alloc: bool
    const excludedFromGC: bool
    /** The target's own say on whether this section takes part, if it has one. */
    const targetChoice: Option<bool>
    var kind: Kind
  }

  class Symbol {
    const local: bool
    var shouldIgnore: bool
  }

  /** May the section be collected at all? */
  predicate MayProcess(s: Section)
    reads s
  {
    if s.excludedFromGC then false
    else if s.targetChoice.Some? then s.targetChoice.value
    else match s.kind
      case Regular | Common | Internal | Target | MetaData | GCCExceptTable => true
      case MergeStr => s.alloc
      case _ => false
  }

  /** Does marking go through the section? An ignored entry section is kept, so what it refers to is too. */
  predicate Passes(s: Section, entries: set<Section>)
    reads s
  {
    s.bitcode || MayProcess(s) || (s.kind == Ignore && s in entries)
  }

  /** Which sections may be collected: never an excluded one; what the target says, if it says anything; and
      otherwise those of six kinds, and string sections that are allocated. */
  lemma MayProcessWhen(s: Section)
    ensures s.excludedFromGC ==> !MayProcess(s)
    ensures !s.excludedFromGC && s.targetChoice.Some? ==> MayProcess(s) == s.targetChoice.value
    ensures !s.excludedFromGC && s.targetChoice.None? ==>
      (MayProcess(s) <==> s.kind in {Regular, Common, Internal, Target, MetaData, GCCExceptTable} ||
                          (s.kind == MergeStr && s.alloc))
  {
  }

  /** Which sections marking goes through: bitcode, entries that are ignored, and what may be collected. */
  lemma PassesWhen(s: Section, entries: set<Section>)
    ensures s.bitcode || (s.kind == Ignore && s in entries) ==> Passes(s, entries)
    ensures s.excludedFromGC && !s.bitcode && s.kind != Ignore ==> !Passes(s, entries)
    ensures !s.bitcode && s.kind == Ignore && s !in entries && s.targetChoice.None? ==> !Passes(s, entries)
    ensures !s.bitcode && !s.excludedFromGC && s.kind != Ignore && s.targetChoice.Some? ==>
      Passes(s, entries) == s.targetChoice.value
    ensures !s.bitcode && !s.excludedFromGC && s.kind != Ignore && s.targetChoice.None? ==>
      (Passes(s, entries) <==> s.kind in {Regular, Common, Internal, Target, MetaData, GCCExceptTable} ||
                               (s.kind == MergeStr && s.alloc))
  {
  }

  ghost function Passing(all: set<Section>, entries: set<Section>): set<Section>
    reads all
  {
    set s | s in all && Passes(s, entries)
  }

  type Edges = map<Section, set<Section>>

  ghost predicate Within(edges: Edges, entries: set<Section>, all: set<Section>) {
    entries <= all && forall s, t | Edge(edges, s, t) :: t in all
  }

  // ---- marking --------------------------------------------------------------------------------

  /** t is an entry, or some marked section refers to it. */
  ghost predicate Referred(t: Section, marked: set<Section>, edges: Edges, entries: set<Section>) {
    t in entries || exists s :: s in marked && Edge(edges, s, t)
  }

  /** Between two steps of a search that has taken up the starts in done: what is marked is reached, and
      what a marked section refers to is marked or queued. */
  ghost predicate Frontier(marked: set<Section>, queued: set<Section>, done: set<Section>,
                           edges: Edges, starts: set<Section>, pass: set<Section>)
  {
    && (forall s | s in marked :: s in pass && Reached(s, edges, starts, pass))
    && (forall s | s in queued && s in pass :: Reached(s, edges, starts, pass))
    && (forall e | e in done && e in pass :: e in marked || e in queued)
    && (forall s, t | s in marked && Edge(edges, s, t) && t in pass :: t in marked || t in queued)
  }

  /** What is marked, queued or taken up is live, and nothing else but what a marked section refers to. */
  ghost predicate Tracked(marked: set<Section>, queued: set<Section>, live: set<Section>, done: set<Section>,
                          edges: Edges, entries: set<Section>)
  {
    && (forall t | t in live :: Referred(t, marked, edges, entries))
    && (forall s, t | s in marked && Edge(edges, s, t) :: t in live)
    && marked <= live && queued <= live && done <= live
  }

  ghost predicate Marking(marked: set<Section>, queued: set<Section>, live: set<Section>, done: set<Section>,
                          edges: Edges, entries: set<Section>, pass: set<Section>)
  {
    && Frontier(marked, queued, done, edges, entries, pass)
    && Tracked(marked, queued, live, done, edges, entries)
  }

  ghost function Elements(queue: seq<Section>): set<Section> { set s | s in queue }

  lemma HeadAndTail(queue: seq<Section>)
    requires queue != []
    ensures Elements(queue) == Elements(queue[1..]) + {queue[0]}
  {
    assert queue == [queue[0]] + queue[1..];
  }

  lemma AddedLast(queue: seq<Section>, t: Section)
    ensures Elements(queue + [t]) == Elements(queue) + {t}
  {
    assert forall s :: s in queue + [t] <==> s in queue || s == t;
  }

  /** Queueing one more entry. */
  lemma TakenUp(entry: Section, marked: set<Section>, live: set<Section>, done: set<Section>,
                edges: Edges, entries: set<Section>, pass: set<Section>)
    requires entry in entries && entry in done && Marking(marked, {}, live, done - {entry}, edges, entries, pass)
    ensures Elements([entry]) == {entry}
    ensures Marking(marked, {entry}, live + {entry}, done, edges, entries, pass)
  {
    assert [entry][0] == entry;
    if entry in pass {
      StartReached(entry, edges, entries, pass);
    }
  }

  function Successors(s: Section, edges: Edges): set<Section> {
    if s in edges then edges[s] else {}
  }

  /** Marking a section and queueing at least what it refers to that passes and is not marked yet. */
  lemma Advance(s: Section, marked: set<Section>, queued: set<Section>, more: set<Section>, done: set<Section>,
                edges: Edges, starts: set<Section>, pass: set<Section>)
    requires Frontier(marked, queued + {s}, done, edges, starts, pass) && s in pass
    requires more <= Successors(s, edges)
    requires forall t | t in Successors(s, edges) && t in pass && t != s && t !in marked :: t in more
    ensures Frontier(marked + {s}, queued + more, done, edges, starts, pass)
  {
    forall t | t in Successors(s, edges) && t in pass ensures Reached(t, edges, starts, pass) {
      StepReached(s, t, edges, starts, pass);
    }
  }

  lemma Marked(s: Section, marked: set<Section>, queued: set<Section>, live: set<Section>, done: set<Section>,
               edges: Edges, entries: set<Section>, pass: set<Section>)
    requires Marking(marked, queued + {s}, live, done, edges, entries, pass)
    requires s in pass
    ensures
      var unmarked := Successors(s, edges) - (marked + {s});
      Marking(marked + {s}, queued + unmarked, live + unmarked, done, edges, entries, pass)
  {
    var unmarked := Successors(s, edges) - (marked + {s});
    Advance(s, marked, queued, unmarked, done, edges, entries, pass);
    forall t | t in live + unmarked ensures Referred(t, marked + {s}, edges, entries) {
      if t in live && t !in entries {
        var r :| r in marked && Edge(edges, r, t);
        assert r in marked + {s};
      } else if t in unmarked {
        assert Edge(edges, s, t);
      }
    }
  }

  class Collector {
    var marked: set<Section>

    constructor ()
      ensures marked == {}
    {
      marked := {};
    }

    /** Marks every section reached from the entries along passing sections; the live set comes out as
        the entries and everything a marked section refers to. */
    method FindReferenced(entries: set<Section>, edges: Edges, ghost all: set<Section>) returns (live: set<Section>)
      requires marked == {} && Within(edges, entries, all)
      modifies this
      ensures forall s :: s in marked <==> Reached(s, edges, entries, Passing(all, entries))
      ensures Closed(marked, edges, entries, Passing(all, entries))
      ensures forall t :: t in live <==> Referred(t, marked, edges, entries)
    {
      ghost var pass := Passing(all, entries);
      live := {};
      var todo := entries;
      while todo != {}
        invariant todo <= entries && Marking(marked, {}, live, entries - todo, edges, entries, pass)
      {
        var entry :| entry in todo;
        todo := todo - {entry};
        live := Mark(entry, live, edges, entries, all, entries - todo);
      }
      ClosedIsReached(marked, edges, entries, pass);
    }

    /** Works off the queue that starts with one entry. */
    method Mark(entry: Section, live0: set<Section>, edges: Edges, entries: set<Section>,
                ghost all: set<Section>, ghost done: set<Section>) returns (live: set<Section>)
      requires entry in entries && entry in done && Within(edges, entries, all)
      requires Marking(marked, {}, live0, done - {entry}, edges, entries, Passing(all, entries))
      modifies this
      ensures Marking(marked, {}, live, done, edges, entries, Passing(all, entries))
    {
      ghost var pass := Passing(all, entries);
      var queue := [entry];
      live := live0 + {entry};
      TakenUp(entry, marked, live0, done, edges, entries, pass);
      while queue != []
        invariant Marking(marked, Elements(queue), live, done, edges, entries, pass)
        invariant Elements(queue) <= all && marked <= pass
        decreases pass - marked, |queue|
      {
        HeadAndTail(queue);
        var s := queue[0];
        queue := queue[1..];
        if !Passes(s, entries) || s in marked {
          continue;
        }
        Marked(s, marked, Elements(queue), live, done, edges, entries, pass);
        marked := marked + {s};
        queue, live := QueueUnmarked(Successors(s, edges), queue, live);
      }
    }

    method QueueUnmarked(reached: set<Section>, queue0: seq<Section>, live0: set<Section>)
      returns (queue: seq<Section>, live: set<Section>)
      ensures Elements(queue) == Elements(queue0) + (reached - marked)
      ensures live == live0 + (reached - marked)
    {
      queue, live := queue0, live0;
      var todo := reached;
      while todo != {}
        invariant todo <= reached
        invariant Elements(queue) == Elements(queue0) + (reached - todo - marked)
        invariant live == live0 + (reached - todo - marked)
      {
        var t :| t in todo;
        todo := todo - {t};
        if t !in marked {
          AddedLast(queue, t);
          queue := queue + [t];
          live := live + {t};
        }
      }
    }

    // ---- stripping ----------------------------------------------------------------------------

    /** The section may be collected and nothing marked it. */
    predicate Unmarked(s: Section)
      reads this, s
    {
      MayProcess(s) && s !in marked
    }

    /** Ignores every unmarked section. With commonOnly, the kinds of all but the common ones are saved. */
    method IgnoreUnmarked(sections: seq<Section>, commonOnly: bool) returns (saved: seq<(Section, Kind)>)
      requires NoRepeats(sections)
      modifies (set s | s in sections)`kind
      ensures forall s | s in sections :: s.kind == if old(Unmarked(s)) then Ignore else old(s.kind)
      ensures forall s | s in sections && old(Unmarked(s)) && commonOnly && !s.common :: (s, old(s.kind)) in saved
      ensures forall p | p in saved ::
        p.0 in sections && p.1 == old(p.0.kind) && old(Unmarked(p.0)) && commonOnly && !p.0.common
    {
      saved := [];
      for i := 0 to |sections|
        invariant forall j | 0 <= j < i ::
          sections[j].kind == if old(Unmarked(sections[j])) then Ignore else old(sections[j].kind)
        invariant forall j | i <= j < |sections| :: sections[j].kind == old(sections[j].kind)
        invariant forall j | 0 <= j < i && old(Unmarked(sections[j])) && commonOnly && !sections[j].common ::
          (sections[j], old(sections[j].kind)) in saved
        invariant forall p | p in saved ::
          p.0 in sections && p.1 == old(p.0.kind) && old(Unmarked(p.0)) && commonOnly && !p.0.common
      {
        var s := sections[i];
        assert Unmarked(s) == old(Unmarked(s));
        if Unmarked(s) {
          if commonOnly && !s.common {
            saved := saved + [(s, s.kind)];
          }
          s.kind := Ignore;
        }
      }
    }

    /** Ignores every unmarked section, keeps the symbols that what is left refers to, and then, with
        commonOnly, gives all but the common sections their kinds back. */
    method StripSections(sections: seq<Section>, live: set<Section>, symbols: map<Section, set<Symbol>>,
                         commonOnly: bool)
      requires NoRepeats(sections)
      modifies (set s | s in sections)`kind, SymbolsOf(symbols)`shouldIgnore
      ensures forall s | s in sections ::
        s.kind == if old(Unmarked(s)) && (!commonOnly || s.common) then Ignore else old(s.kind)
      ensures forall y | y in SymbolsOf(symbols) ::
        y.shouldIgnore <==>
        (old(y.shouldIgnore) &&
         !exists s :: s in sections && !old(Unmarked(s)) && old(Present(s)) && RefersTo(s, y, live, symbols))
    {
      var saved := IgnoreUnmarked(sections, commonOnly);
      assert forall s | s in sections :: Present(s) == (!old(Unmarked(s)) && old(Present(s)));
      KeepSymbols(sections, live, symbols);
      Restore(saved);
    }

    /** Marks and strips, in terms of which sections may be collected. */
    method Collect(files: seq<InputFile>, entries: set<Section>, edges: Edges, symbols: map<Section, set<Symbol>>,
                   commonOnly: bool, ghost all: set<Section>) returns (live: set<Section>)
      requires marked == {} && Within(edges, entries, all)
      requires NoRepeats(ScannedSections(files)) && Elements(ScannedSections(files)) <= all
      modifies this, Elements(ScannedSections(files))`kind, SymbolsOf(symbols)`shouldIgnore
      ensures forall s :: s in marked <==> Reached(s, edges, entries, old(Passing(all, entries)))
      ensures forall t :: t in live <==> Referred(t, marked, edges, entries)
      ensures forall s | s in ScannedSections(files) ::
        s.kind == if old(MayProcess(s)) && s !in marked && (!commonOnly || s.common) then Ignore else old(s.kind)
      ensures forall s, t | s in marked && Edge(edges, s, t) :: t.kind == old(t.kind)
      ensures forall y | y in SymbolsOf(symbols) :: y.shouldIgnore <==>
        (old(y.shouldIgnore) &&
         !exists s :: s in ScannedSections(files) && (s in marked || !old(MayProcess(s))) &&
                      old(Present(s)) && RefersTo(s, y, live, symbols))
    {
      live := FindReferenced(entries, edges, all);
      var sections := ScannedSections(files);
      assert forall s | s in sections :: s in Elements(sections);
      ghost var pass := Passing(all, entries);
      StripSections(sections, live, symbols, commonOnly);
      forall s, t | s in marked && Edge(edges, s, t) ensures t.kind == old(t.kind) {
        assert t in all;
      }
    }

    /** A whole collection. A section ends up ignored if it may be collected and no entry reaches it, so
        nothing a marked section refers to is ignored by it. With commonOnly only common sections are.
        A symbol stays ignored unless a section that is left refers to it. */
    method Run(files: seq<InputFile>, entries: set<Section>, edges: Edges, symbols: map<Section, set<Symbol>>,
               commonOnly: bool, ghost all: set<Section>) returns (live: set<Section>)
      requires marked == {} && Within(edges, entries, all)
      requires NoRepeats(ScannedSections(files)) && Elements(ScannedSections(files)) <= all
      modifies this, Elements(ScannedSections(files))`kind, SymbolsOf(symbols)`shouldIgnore
      ensures forall s :: s in marked <==> Reached(s, edges, entries, old(Passing(all, entries)))
      ensures forall t :: t in live <==> Referred(t, marked, edges, entries)
      ensures forall s | s in all && (!InObject(files, s) || s.excludedFromGC) :: s.kind == old(s.kind)
      ensures forall s | InObject(files, s) && !s.excludedFromGC && s.targetChoice.Some? ::
        s.kind == if s.targetChoice.value && s !in marked && (!commonOnly || s.common) then Ignore else old(s.kind)
      ensures forall s | InObject(files, s) && !s.excludedFromGC && s.targetChoice.None? ::
        s.kind ==
          if (old(s.kind) in {Regular, Common, Internal, Target, MetaData, GCCExceptTable} ||
              (old(s.kind) == MergeStr && s.alloc)) && s !in marked && (!commonOnly || s.common)
          then Ignore else old(s.kind)
      ensures forall s, t | s in marked && Edge(edges, s, t) :: t.kind == old(t.kind)
      ensures forall y | y in SymbolsOf(symbols) :: y.shouldIgnore <==>
        (old(y.shouldIgnore) &&
         !exists s :: InObject(files, s) && (s in marked || !old(MayProcess(s))) &&
                      old(s.kind) != Ignore && old(s.kind) != Discard && RefersTo(s, y, live, symbols))
      ensures !commonOnly ==> forall y | y in SymbolsOf(symbols) :: y.shouldIgnore <==>
        (old(y.shouldIgnore) && !exists s :: InObject(files, s) && LeftReferring(s, y, live, symbols))
    {
      ScannedIff(files);
      live := Collect(files, entries, edges, symbols, commonOnly, all);
    }
  }

  datatype InputFile = InputFile(isObject: bool, isInternal: bool, isCommonInternal: bool, sections: seq<Section>)

  /** Does stripping look into the file? Of the linker's own inputs only the one holding common symbols. */
  predicate Scanned(file: InputFile) {
    file.isObject && (!file.isInternal || file.isCommonInternal)
  }

  function Native(sections: seq<Section>): seq<Section> {
    if sections == [] then [] else
      var n := |sections| - 1;
      Native(sections[..n]) + if sections[n].bitcode then [] else [sections[n]]
  }

  /** The sections stripping looks at, file by file. */
  function ScannedSections(files: seq<InputFile>): seq<Section> {
    if files == [] then [] else
      var n := |files| - 1;
      ScannedSections(files[..n]) + if Scanned(files[n]) then Native(files[n].sections) else []
  }

  /** The section is in an object file that is not the linker's own, or is the one holding common symbols, and
      is not bitcode. */
  ghost predicate InObject(files: seq<InputFile>, s: Section) {
    exists f :: f in files && f.isObject && (!f.isInternal || f.isCommonInternal) && s in f.sections && !s.bitcode
  }

  lemma {:induction false} NativeIff(sections: seq<Section>, s: Section)
    ensures s in Native(sections) <==> s in sections && !s.bitcode
  {
    if sections != [] {
      var n := |sections| - 1;
      NativeIff(sections[..n], s);
      assert sections == sections[..n] + [sections[n]];
    }
  }

  /** These are the sections stripping looks at. */
  lemma ScannedIff(files: seq<InputFile>)
    ensures forall s :: s in ScannedSections(files) <==> InObject(files, s)
  {
    forall s ensures s in ScannedSections(files) <==> InObject(files, s) {
      SectionScannedIff(files, s);
    }
  }

  lemma {:induction false} SectionScannedIff(files: seq<InputFile>, s: Section)
    ensures s in ScannedSections(files) <==> InObject(files, s)
  {
    if files != [] {
      var n := |files| - 1;
      SectionScannedIff(files[..n], s);
      NativeIff(files[n].sections, s);
      assert files == files[..n] + [files[n]];
      assert forall f :: f in files <==> f in files[..n] || f == files[n];
    }
  }

  predicate Present(s: Section)
    reads s
  {
    s.kind != Ignore && s.kind != Discard
  }

  function SymbolsOf(symbols: map<Section, set<Symbol>>): set<Symbol> {
    set s, y | s in symbols && y in symbols[s] :: y
  }

  /** A reference that keeps the symbol: from an allocated or live section, or to a local symbol. */
  ghost predicate RefersTo(s: Section, y: Symbol, live: set<Section>, symbols: map<Section, set<Symbol>>) {
    s in symbols && y in symbols[s] && (s.alloc || s in live || y.local)
  }

  /** A section that is neither ignored nor discarded refers to the symbol so. */
  ghost predicate LeftReferring(s: Section, y: Symbol, live: set<Section>, symbols: map<Section, set<Symbol>>)
    reads s
  {
    && s.kind != Ignore && s.kind != Discard
    && s in symbols && y in symbols[s] && (s.alloc || s in live || y.local)
  }

  ghost predicate KeptBy(y: Symbol, sections: seq<Section>, live: set<Section>, symbols: map<Section, set<Symbol>>)
    reads sections
  {
    exists s :: s in sections && Present(s) && RefersTo(s, y, live, symbols)
  }

  /** Keeps every symbol a present section refers to. */
  method KeepSymbols(sections: seq<Section>, live: set<Section>, symbols: map<Section, set<Symbol>>)
    modifies SymbolsOf(symbols)`shouldIgnore
    ensures forall y | y in SymbolsOf(symbols) ::
      y.shouldIgnore <==> old(y.shouldIgnore) && !KeptBy(y, sections, live, symbols)
  {
    for i := 0 to |sections|
      invariant forall y | y in SymbolsOf(symbols) ::
        y.shouldIgnore <==> old(y.shouldIgnore) && !KeptBy(y, sections[..i], live, symbols)
    {
      var s := sections[i];
      label L:
      if Present(s) && s in symbols {
        assert symbols[s] <= SymbolsOf(symbols);
        KeepSymbolsOf(symbols[s], s.alloc || s in live);
      }
      forall y | y in SymbolsOf(symbols)
        ensures KeptBy(y, sections[..i + 1], live, symbols) <==>
          KeptBy(y, sections[..i], live, symbols) || (Present(s) && RefersTo(s, y, live, symbols))
      {
        KeptBySnoc(y, sections, i, live, symbols);
      }
    }
    assert sections[..|sections|] == sections;
  }

  lemma KeptBySnoc(y: Symbol, sections: seq<Section>, i: nat, live: set<Section>, symbols: map<Section, set<Symbol>>)
    requires i < |sections|
    ensures KeptBy(y, sections[..i + 1], live, symbols) <==>
      KeptBy(y, sections[..i], live, symbols) || (Present(sections[i]) && RefersTo(sections[i], y, live, symbols))
  {
    assert sections[..i + 1] == sections[..i] + [sections[i]];
    if KeptBy(y, sections[..i], live, symbols) {
      var s :| s in sections[..i] && Present(s) && RefersTo(s, y, live, symbols);
      assert s in sections[..i + 1];
    }
    if Present(sections[i]) && RefersTo(sections[i], y, live, symbols) {
      assert sections[i] in sections[..i + 1];
    }
  }

  method KeepSymbolsOf(referred: set<Symbol>, all: bool)
    modifies referred`shouldIgnore
    ensures forall y | y in referred :: y.shouldIgnore <==> old(y.shouldIgnore) && !all && !y.local
  {
    var todo := referred;
    while todo != {}
      invariant todo <= referred
      invariant forall y | y in referred - todo :: y.shouldIgnore <==> old(y.shouldIgnore) && !all && !y.local
      invariant forall y | y in todo :: y.shouldIgnore == old(y.shouldIgnore)
    {
      var y :| y in todo;
      todo := todo - {y};
      if all || y.local {
        y.shouldIgnore := false;
      }
    }
  }

  method Restore(saved: seq<(Section, Kind)>)
    requires forall p, q | p in saved && q in saved && p.0 == q.0 :: p.1 == q.1
    modifies (set p | p in saved :: p.0)`kind
    ensures forall p | p in saved :: p.0.kind == p.1
  {
    for i := 0 to |saved|
      invariant forall j | 0 <= j < i :: saved[j].0.kind == saved[j].1
    {
      saved[i].0.kind := saved[i].1;
    }
  }

  // ---- references out of bitcode --------------------------------------------------------------

  ghost function Bitcode(all: set<Section>): set<Section> {
    set s | s in all && s.bitcode
  }

  ghost function BitcodeListed(lists: Edges): set<Section> {
    set s | s in lists && s.bitcode
  }

  /** Every bitcode list holds what its section refers to, and the native lists are as they were. */
  ghost predicate ListsBuilt(lists: Edges, native: Edges, references: Edges) {
    && (forall s | s in lists && s.bitcode :: lists[s] == Successors(s, references))
    && (forall s | s in lists && !s.bitcode :: s in native && lists[s] == native[s])
    && (forall s | s in native :: !s.bitcode && s in lists)
  }

  /** The native lists, and the references of every listed bitcode section; all bitcode they lead to is listed. */
  ghost predicate Complete(lists: Edges, native: Edges, references: Edges) {
    && (forall s, t | Edge(lists, s, t) :: Edge(native, s, t) || Edge(references, s, t))
    && (forall s, t | Edge(native, s, t) :: Edge(lists, s, t))
    && (forall s, t | Edge(references, s, t) && s.bitcode && s in lists :: Edge(lists, s, t))
    && (forall s, t | Edge(lists, s, t) && t.bitcode :: t in lists)
  }

  lemma ReferredListed(s: Section, t: Section, lists: Edges, native: Edges, references: Edges, starts: set<Section>,
                       all: set<Section>)
    requires ListsBuilt(lists, native, references) && Within(references, starts, all)
    requires Closed(BitcodeListed(lists), references, starts, Bitcode(all))
    requires forall s, t | Edge(native, s, t) && t.bitcode :: t in starts
    requires Edge(lists, s, t) && t.bitcode
    ensures t in lists
  {
    var traced := BitcodeListed(lists);
    if s.bitcode {
      assert s in traced && Edge(references, s, t);
    } else {
      assert Edge(native, s, t);
    }
    assert t in Bitcode(all) && t in traced;
  }

  lemma BuiltIsComplete(lists: Edges, native: Edges, references: Edges, starts: set<Section>, all: set<Section>)
    requires ListsBuilt(lists, native, references) && Within(references, starts, all)
    requires Closed(BitcodeListed(lists), references, starts, Bitcode(all))
    requires forall s, t | Edge(native, s, t) && t.bitcode :: t in starts
    ensures Complete(lists, native, references)
  {
    forall s, t | Edge(lists, s, t) ensures Edge(native, s, t) || Edge(references, s, t) {
    }
    forall s, t | Edge(lists, s, t) && t.bitcode ensures t in lists {
      ReferredListed(s, t, lists, native, references, starts, all);
    }
  }

  /** Which sections each section reaches directly. Native sections have their lists from their
      relocations; the bitcode sections those refer to are queued. */
  class SectionReachedListMap {
    var lists: Edges
    var queue: seq<Section>

    constructor (lists: Edges, queue: seq<Section>)
      ensures this.lists == lists && this.queue == queue
    {
      this.lists, this.queue := lists, queue;
    }

    /** Gives a list to every bitcode section reached from the queue through bitcode sections. */
    method FindReachedBitcode(references: Edges, ghost all: set<Section>)
      requires Within(references, Elements(queue), all)
      requires forall s | s in lists :: !s.bitcode
      requires forall s | s in queue :: s.bitcode
      requires forall s, t | Edge(lists, s, t) && t.bitcode :: t in queue
      modifies this
      ensures queue == [] && ListsBuilt(lists, old(lists), references) && Complete(lists, old(lists), references)
      ensures forall s :: s in lists && s.bitcode <==> Reached(s, references, old(Elements(queue)), Bitcode(all))
    {
      ghost var starts, pass := Elements(queue), Bitcode(all);
      forall s | s in starts && s in pass ensures Reached(s, references, starts, pass) {
        StartReached(s, references, starts, pass);
      }
      while queue != []
        invariant Elements(queue) <= pass && BitcodeListed(lists) <= pass && ListsBuilt(lists, old(lists), references)
        invariant Frontier(BitcodeListed(lists), Elements(queue), starts, references, starts, pass)
        decreases pass - BitcodeListed(lists), |queue|
      {
        HeadAndTail(queue);
        var s := queue[0];
        queue := queue[1..];
        if s in lists {
          continue;
        }
        assert forall t | t in Successors(s, references) :: Edge(references, s, t);
        TraceOne(s, references, starts, pass);
      }
      ClosedIsReached(BitcodeListed(lists), references, starts, pass);
      BuiltIsComplete(lists, old(lists), references, starts, all);
      forall s ensures s in lists && s.bitcode <==> Reached(s, references, starts, pass) {
        assert s in BitcodeListed(lists) <==> s in lists && s.bitcode;
      }
    }

    method TraceOne(s: Section, references: Edges, ghost starts: set<Section>, ghost pass: set<Section>)
      requires s.bitcode && s in pass && s !in lists && (forall p | p in pass :: p.bitcode)
      requires forall t | t in Successors(s, references) && t.bitcode :: t in pass
      requires Frontier(BitcodeListed(lists), Elements(queue) + {s}, starts, references, starts, pass)
      modifies this
      ensures lists == old(lists)[s := Successors(s, references)] &&
        BitcodeListed(lists) == BitcodeListed(old(lists)) + {s}
      ensures Frontier(BitcodeListed(lists), Elements(queue), starts, references, starts, pass)
      ensures forall t | t in queue :: t in old(queue) || (t in Successors(s, references) && t.bitcode)
    {
      ghost var queued := Elements(queue);
      var reached: set<Section>, todo := {}, Successors(s, references);
      lists := lists[s := {}];
      ghost var more: set<Section> := {};
      while todo != {}
        invariant lists == old(lists)[s := {}]
        invariant todo <= Successors(s, references) && reached == Successors(s, references) - todo
        invariant more <= reached && Elements(queue) == queued + more
        invariant forall t | t in more :: t.bitcode
        invariant forall t | t in reached && t.bitcode && t !in lists :: t in more
      {
        var t :| t in todo;
        todo, reached := todo - {t}, reached + {t};
        if t.bitcode && t !in lists {
          AddedLast(queue, t);
          queue, more := queue + [t], more + {t};
        }
      }
      Advance(s, BitcodeListed(old(lists)), queued, more, starts, references, starts, pass);
      assert reached == Successors(s, references);
      assert lists[s := reached] == old(lists)[s := reached];
      lists := lists[s := reached];
      assert BitcodeListed(lists) == BitcodeListed(old(lists)) + {s};
      forall t | t in queue ensures t in old(queue) || (t in Successors(s, references) && t.bitcode) {
        assert t in Elements(queue);
      }
    }
  }

  // ---- do the lists suffice? ------------------------------------------------------------------

  /** All references there are: native sections have none in bitcode, and the other way round. */
  ghost predicate Union(edges: Edges, native: Edges, references: Edges) {
    && (forall s | s in native :: !s.bitcode)
    && (forall s | s in references :: s.bitcode)
    && (forall s, t | Edge(edges, s, t) :: Edge(native, s, t) || Edge(references, s, t))
    && (forall s, t | Edge(native, s, t) :: Edge(edges, s, t))
    && (forall s, t | Edge(references, s, t) :: Edge(edges, s, t))
  }

  lemma {:induction false} PathTraced(path: seq<Section>, edges: Edges, lists: Edges, native: Edges, references: Edges,
                                      entries: set<Section>, pass: set<Section>)
    requires Complete(lists, native, references) && Union(edges, native, references)
    requires forall e | e in entries && e.bitcode :: e in lists
    requires Path(path, edges, entries, pass)
    ensures path[|path| - 1].bitcode ==> path[|path| - 1] in lists
    decreases |path|
  {
    var n := |path| - 1;
    if n > 0 {
      PathTraced(path[..n], edges, lists, native, references, entries, pass);
      assert path[..n][n - 1] == path[n - 1];
      assert Edge(native, path[n - 1], path[n]) || Edge(references, path[n - 1], path[n]);
      assert Edge(lists, path[n - 1], path[n]);
    }
  }

  /** All bitcode that marking should reach is listed exactly when every bitcode entry is. */
  lemma ListedIffEntriesListed(edges: Edges, lists: Edges, native: Edges, references: Edges, entries: set<Section>,
                               pass: set<Section>)
    requires Complete(lists, native, references) && Union(edges, native, references)
    requires forall e | e in entries && e.bitcode :: e in pass
    ensures (forall e | e in entries && e.bitcode :: e in lists) <==>
            (forall s | Reached(s, edges, entries, pass) && s.bitcode :: s in lists)
  {
    if forall s | Reached(s, edges, entries, pass) && s.bitcode :: s in lists {
      forall e | e in entries && e.bitcode ensures e in lists {
        StartReached(e, edges, entries, pass);
      }
    }
    if forall e | e in entries && e.bitcode :: e in lists {
      forall s | Reached(s, edges, entries, pass) && s.bitcode ensures s in lists {
        var path :| Path(path, edges, entries, pass) && path[|path| - 1] == s;
        PathTraced(path, edges, lists, native, references, entries, pass);
      }
    }
  }

  /** What an unlisted bitcode entry refers to is reached along the lists in some other way. */
  ghost predicate Bypassed(lists: Edges, references: Edges, entries: set<Section>, pass: set<Section>) {
    forall e, t | e in entries && e in pass && e.bitcode && e !in lists && Edge(references, e, t) && t in pass ::
      Reached(t, lists, entries, pass)
  }

  /** Bitcode reached along the lists has a list itself, unless it is an entry. */
  lemma ReachedListed(t: Section, lists: Edges, native: Edges, references: Edges, entries: set<Section>,
                      pass: set<Section>)
    requires Complete(lists, native, references) && Reached(t, lists, entries, pass) && t.bitcode
    ensures t in lists || t in entries
  {
    var path :| Path(path, lists, entries, pass) && path[|path| - 1] == t;
    var n := |path| - 1;
    assert n > 0 ==> Edge(lists, path[n - 1], path[n]);
  }

  lemma {:induction false} PathListed(path: seq<Section>, edges: Edges, lists: Edges, native: Edges, references: Edges,
                                      entries: set<Section>, pass: set<Section>)
    requires Complete(lists, native, references) && Union(edges, native, references)
    requires Bypassed(lists, references, entries, pass) && Path(path, edges, entries, pass)
    ensures Reached(path[|path| - 1], lists, entries, pass)
    decreases |path|
  {
    var n := |path| - 1;
    var t := path[n];
    if n == 0 {
      StartReached(t, lists, entries, pass);
    } else {
      var p := path[n - 1];
      PathListed(path[..n], edges, lists, native, references, entries, pass);
      assert path[..n][n - 1] == p && p in pass;
      if p.bitcode {
        ReachedListed(p, lists, native, references, entries, pass);
      }
      if Edge(lists, p, t) {
        StepReached(p, t, lists, entries, pass);
      } else {
        assert Edge(references, p, t) && p in entries && p !in lists;
      }
    }
  }

  /** Marking along the lists reaches exactly what the references lead to if and only if all that an
      unlisted bitcode entry refers to is reached along the lists anyway. */
  lemma ListsSuffice(edges: Edges, lists: Edges, native: Edges, references: Edges, entries: set<Section>,
                     pass: set<Section>)
    requires Complete(lists, native, references) && Union(edges, native, references)
    ensures (forall s :: Reached(s, lists, entries, pass) <==> Reached(s, edges, entries, pass))
            <==> Bypassed(lists, references, entries, pass)
  {
    if forall s :: Reached(s, lists, entries, pass) <==> Reached(s, edges, entries, pass) {
      forall e, t | e in entries && e in pass && e.bitcode && e !in lists && Edge(references, e, t) && t in pass
        ensures Reached(t, lists, entries, pass)
      {
        StartReached(e, edges, entries, pass);
        StepReached(e, t, edges, entries, pass);
      }
    }
    if Bypassed(lists, references, entries, pass) {
      forall s ensures Reached(s, lists, entries, pass) <==> Reached(s, edges, entries, pass) {
        if Reached(s, edges, entries, pass) {
          var path :| Path(path, edges, entries, pass) && path[|path| - 1] == s;
          PathListed(path, edges, lists, native, references, entries, pass);
        }
        if Reached(s, lists, entries, pass) {
          SameReached(s, lists, edges, entries, pass);
        }
      }
    }
  }

  /** A bitcode entry that no native section and no traced bitcode refers to has no list, so marking
      stops at it. */
  lemma BitcodeEntryUntraced(e: Section, n: Section)
    requires e.bitcode && !n.bitcode
    ensures
      var references: Edges := map[e := {n}];
      && Complete(map[], map[], references) && Union(references, map[], references)
      && Reached(n, references, {e}, {e, n}) && !Reached(n, map[], {e}, {e, n})
  {
    var references: Edges := map[e := {n}];
    StartReached(e, references, {e}, {e, n});
    assert Edge(references, e, n);
    StepReached(e, n, references, {e}, {e, n});
  }
}
