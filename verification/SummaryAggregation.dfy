/** The aggregation of chunk summaries in `process_transcript_background` (backend/app/main.py): nested loops
    that extend lists in place, over objects that could share them. */
module SummaryAggregation {
  /** A block of content; its fields are only carried along. */
  datatype Block = Block(id: string, kind: string, content: string, color: string)

  datatype Section = Section(title: string, blocks: seq<Block>)

  /** A chunk's `SummaryResponse`: the six categories in the order of the final summary, then the notes. */
  datatype Chunk = Chunk(meetingName: string, categories: seq<Section>, notesName: string, sections: seq<Section>)

  const TITLES: seq<string> :=
    ["People", "Session Summary", "Critical Deadlines", "Key Items & Decisions", "Immediate Action Items",
     "Next Steps"]

  const CATEGORIES: nat := 6

  datatype Summary = Summary(meetingName: string, categories: seq<Section>, notesName: string, sections: seq<Section>)

  // ------------------------------------------------------------ on values

  function EmptySummary(): Summary {
    Summary("", EmptyCategories(), "", [])
  }

  function EmptyCategories(): (r: seq<Section>)
    ensures |r| == CATEGORIES
  {
    seq(|TITLES|, i requires 0 <= i < |TITLES| => Section(TITLES[i], []))
  }

  lemma {:induction false} EmptyIsEmpty(values: seq<Section>, n: nat)
    requires values == EmptyCategories() && n == |values|
    ensures Summary("", values[..n], "", values[n..]) == EmptySummary()
  {}

  /** The first section of that title, or the number of sections. */
  function FirstTitled(sections: seq<Section>, title: string): (r: nat)
    ensures r <= |sections| && (r < |sections| ==> sections[r].title == title)
    ensures forall i :: 0 <= i < r ==> sections[i].title != title
  {
    if sections == [] || sections[0].title == title then 0 else 1 + FirstTitled(sections[1..], title)
  }

  function Extended(s: Section, blocks: seq<Block>): Section { s.(blocks := s.blocks + blocks) }

  /** Blocks join the first section of the title, or become a section. */
  function Filed(sections: seq<Section>, s: Section): seq<Section> {
    var i := FirstTitled(sections, s.title);
    if i < |sections| then sections[i := Extended(sections[i], s.blocks)] else sections + [s]
  }

  /** The first `n` categories of a chunk have been taken over. */
  function WithCategories(f: Summary, c: Chunk, n: nat): Summary
    requires n <= |c.categories| == |f.categories|
    ensures |WithCategories(f, c, n).categories| == |f.categories|
  {
    if n == 0 then f
    else
      WithCategory(WithCategories(f, c, n - 1), n - 1, c.categories[n - 1])
  }

  function WithCategory(f: Summary, k: nat, s: Section): Summary
    requires k < |f.categories|
  {
    f.(categories := f.categories[k := Extended(f.categories[k], s.blocks)], sections := Filed(f.sections, s))
  }

  function Named(old_: string, new_: string): string { if new_ == "" then old_ else new_ }

  function WithChunk(f: Summary, c: Chunk): Summary
    requires |c.categories| == |f.categories|
    ensures |WithChunk(f, c).categories| == |f.categories|
  {
    var named := f.(meetingName := Named(f.meetingName, c.meetingName));
    var g := WithNotes(WithCategories(named, c, |c.categories|), c.sections);
    g.(notesName := Named(g.notesName, c.notesName))
  }

  function WithNotes(f: Summary, sections: seq<Section>): Summary { f.(sections := f.sections + sections) }

  ghost predicate WellShaped(chunks: seq<Chunk>) {
    forall i :: 0 <= i < |chunks| ==> |chunks[i].categories| == CATEGORIES
  }

  function Aggregate(chunks: seq<Chunk>, n: nat): (f: Summary)
    requires n <= |chunks| && WellShaped(chunks)
    ensures |f.categories| == CATEGORIES
  {
    if n == 0 then EmptySummary() else WithChunk(Aggregate(chunks, n - 1), chunks[n - 1])
  }

  // ----------------------------------------------------------- on objects

  /** A Python list. */
  class BlockList {
    var items: seq<Block>

    constructor (items: seq<Block>)
      ensures this.items == items
    {
      this.items := items;
    }

    /** `extend`. */
    method Extend(more: seq<Block>)
      modifies this
      ensures items == old(items) + more
    {
      items := items + more;
    }

    /** `copy`. */
    method Copy() returns (l: BlockList)
      ensures fresh(l) && l.items == items
    {
      l := new BlockList(items);
    }
  }

  /** A dictionary with a title and a list of blocks. */
  class SectionDict {
    const title: string
    var blocks: BlockList

    constructor (title: string, blocks: BlockList)
      ensures this.title == title && this.blocks == blocks
    {
      this.title, this.blocks := title, blocks;
    }
  }

  function ValueOf(s: SectionDict): Section
    reads s, s.blocks
  {
    Section(s.title, s.blocks.items)
  }

  function ValuesOf(ss: seq<SectionDict>): (r: seq<Section>)
    reads ss, set s | s in ss :: s.blocks
    ensures |r| == |ss|
  {
    seq(|ss|, i requires 0 <= i < |ss| reads ss, set s | s in ss :: s.blocks => ValueOf(ss[i]))
  }

  /** The dictionaries and their lists. */
  ghost function Owned(ss: seq<SectionDict>): (r: set<object>)
    reads ss
    ensures forall s :: s in ss ==> s in r && s.blocks in r
  {
    (set s: SectionDict | s in ss :: s as object) + set s: SectionDict | s in ss :: s.blocks as object
  }

  /** No two positions share a dictionary or a list. */
  ghost predicate Separate(ss: seq<SectionDict>)
    reads ss
  {
    forall i, j :: 0 <= i < j < |ss| ==> ss[i] != ss[j] && ss[i].blocks != ss[j].blocks
  }

  /** `json.loads` of a section: everything is new. */
  method LoadSection(v: Section) returns (s: SectionDict)
    ensures fresh(s) && fresh(s.blocks) && ValueOf(s) == v
  {
    var l := new BlockList(v.blocks);
    s := new SectionDict(v.title, l);
  }

  method LoadSections(vs: seq<Section>) returns (ss: seq<SectionDict>)
    ensures |ss| == |vs| && Separate(ss) && ValuesOf(ss) == vs
    ensures forall i :: 0 <= i < |ss| ==> fresh(ss[i]) && fresh(ss[i].blocks)
  {
    ss := [];
    for i := 0 to |vs|
      invariant |ss| == i && Separate(ss)
      invariant forall j :: 0 <= j < i ==> fresh(ss[j]) && fresh(ss[j].blocks) && ValueOf(ss[j]) == vs[j]
    {
      var s := LoadSection(vs[i]);
      ss := ss + [s];
    }
  }

  /** Extending the list of one of several separate dictionaries changes that dictionary's value alone. */
  method ExtendAt(ghost all: seq<SectionDict>, ghost i: nat, s: SectionDict, more: seq<Block>)
    requires Separate(all) && i < |all| && all[i] == s
    modifies s.blocks
    ensures ValuesOf(all) == old(ValuesOf(all))[i := Extended(old(ValuesOf(all))[i], more)]
  {
    ghost var vals := ValuesOf(all);
    s.blocks.Extend(more);
    forall j | 0 <= j < |all| && j != i ensures ValueOf(all[j]) == vals[j] {
      assert all[j].blocks != s.blocks;
    }
    assert ValuesOf(all) == vals[i := Extended(vals[i], more)];
  }

  class FinalSummary {
    ghost var Repr: set<object>
    const cats: seq<SectionDict>
    var meetingName: string
    var notesName: string
    var sections: seq<SectionDict>

    ghost function All(): seq<SectionDict>
      reads this
    {
      cats + sections
    }

    /** All dictionaries and lists are the summary's own, and none is shared. */
    ghost predicate Valid()
      reads this, Repr
    {
      && this in Repr && |cats| == CATEGORIES
      && (forall s :: s in All() ==> s in Repr && s.blocks in Repr)
      && Separate(All())
    }

    /** The values of the categories followed by those of the notes' sections. */
    ghost function Values(): (r: seq<Section>)
      reads this, Repr
      requires Valid()
      ensures |r| == |cats| + |sections|
    {
      ValuesOf(All())
    }

    ghost function Value(): Summary
      reads this, Repr
      requires Valid()
    {
      Summary(meetingName, Values()[..|cats|], notesName, Values()[|cats|..])
    }

    constructor ()
      ensures Valid() && fresh(Repr) && Value() == EmptySummary()
    {
      var ss := LoadSections(EmptyCategories());
      cats := ss;
      meetingName, notesName, sections := "", "", [];
      Repr := {this};
      new;
      Repr := Repr + (set s | s in ss) + set s | s in ss :: s.blocks;
      assert All() == ss;
      EmptyIsEmpty(ValuesOf(ss), |ss|);
    }

    /** Extend one of the summary's lists. */
    method ExtendList(ghost i: nat, s: SectionDict, more: seq<Block>)
      requires Valid() && i < |All()| && All()[i] == s
      modifies s.blocks
      ensures Valid() && Values() == old(Values())[i := Extended(old(Values())[i], more)]
    {
      ghost var all := All();
      ExtendAt(all, i, s, more);
    }

    /** Blocks that a chunk has under a title join the first section of that title in the notes; without one,
        a copy of the list becomes a section. */
    method FileBlocks(d: SectionDict)
      requires Valid() && d !in Repr && d.blocks !in Repr
      modifies Repr
      ensures Valid() && fresh(Repr - old(Repr)) && old(Repr) <= Repr
      ensures meetingName == old(meetingName) && notesName == old(notesName)
      ensures Values() == old(Values())[..|cats|] + Filed(old(Values())[|cats|..], old(ValueOf(d)))
    {
      ghost var vals := Values();
      var i := FindTitle(d.title);
      if i < |sections| {
        assert All()[|cats| + i] == sections[i];
        UpdateTail(vals, |cats|, i, Extended(vals[|cats| + i], d.blocks.items));
        ExtendList(|cats| + i, sections[i], d.blocks.items);
      } else {
        UpdateTail(vals, |cats|, i, ValueOf(d));
        AppendCopy(d);
      }
    }

    method AppendCopy(d: SectionDict)
      requires Valid()
      modifies this
      ensures Valid() && fresh(Repr - old(Repr)) && old(Repr) <= Repr
      ensures meetingName == old(meetingName) && notesName == old(notesName)
      ensures Values() == old(Values()) + [old(ValueOf(d))]
    {
      ghost var value := ValueOf(d);
      var l := d.blocks.Copy();
      var s := new SectionDict(d.title, l);
      AppendSections([s]);
      OneSection(s, value);
      assert Repr == old(Repr) + {s, l};
    }

    /** The search for a section of a title. */
    method FindTitle(title: string) returns (i: nat)
      requires Valid()
      ensures i == FirstTitled(Values()[|cats|..], title) && i <= |sections|
    {
      ghost var all, vals := All(), Values();
      i := 0;
      while i < |sections| && sections[i].title != title
        invariant 0 <= i <= |sections|
        invariant forall j :: 0 <= j < i ==> vals[|cats|..][j].title != title
      {
        assert vals[|cats| + i] == ValueOf(all[|cats| + i]);
        i := i + 1;
      }
      assert i < |sections| ==> vals[|cats| + i] == ValueOf(all[|cats| + i]);
      FirstTitledIs(vals[|cats|..], title, i);
    }

    /** The category `k` of a chunk: extend the final category, then file the blocks in the notes. The chunk's
        own list is only read. */
    method TakeCategory(k: nat, d: SectionDict)
      requires Valid() && k < |cats| && d !in Repr && d.blocks !in Repr
      modifies Repr
      ensures Valid() && fresh(Repr - old(Repr)) && old(Repr) <= Repr
      ensures Value() == WithCategory(old(Value()), k, old(ValueOf(d)))
    {
      ghost var vals := Values();
      assert All()[k] == cats[k];
      ExtendList(k, cats[k], d.blocks.items);
      FileBlocks(d);
      SplitAt(vals, |cats|, k, Extended(vals[k], old(d.blocks.items)));
    }

    /** The loop over the categories of one chunk. */
    method TakeCategories(ds: seq<SectionDict>, ghost c: Chunk)
      requires Valid() && |ds| == |cats| && ValuesOf(ds) == c.categories
      requires forall s :: s in ds ==> s !in Repr && s.blocks !in Repr
      modifies Repr
      ensures Valid() && fresh(Repr - old(Repr)) && old(Repr) <= Repr
      ensures Value() == WithCategories(old(Value()), c, |ds|)
    {
      ghost var start := Value();
      for k := 0 to |ds|
        invariant Valid() && fresh(Repr - old(Repr)) && old(Repr) <= Repr
        invariant forall s :: s in ds ==> s !in Repr && s.blocks == old(s.blocks) && s.blocks !in Repr
        invariant ValuesOf(ds) == c.categories
        invariant Value() == WithCategories(start, c, k)
      {
        assert ValuesOf(ds)[k] == ValueOf(ds[k]) && ds[k] in ds;
        TakeCategory(k, ds[k]);
      }
    }

    /** The sections of the chunk's own notes join at the end. */
    method TakeNotes(notes: seq<SectionDict>)
      requires Valid() && Separate(notes) && forall s :: s in notes ==> s !in Repr && s.blocks !in Repr
      modifies this, notes
      ensures Valid() && Repr == old(Repr) + Owned(notes)
      ensures forall s :: s in notes ==> s.blocks == old(s.blocks) || fresh(s.blocks)
      ensures Value() == WithNotes(old(Value()), old(ValuesOf(notes)))
    {
      EnsureBlocks(notes);
      ghost var vals := Values();
      AppendSections(notes);
      TailAppend(vals, |cats|, ValuesOf(notes));
    }

    method AppendSections(notes: seq<SectionDict>)
      requires Valid() && Separate(notes) && forall s :: s in notes ==> s !in Repr && s.blocks !in Repr
      modifies this
      ensures Valid() && Repr == old(Repr) + Owned(notes)
      ensures Values() == old(Values()) + ValuesOf(notes)
      ensures meetingName == old(meetingName) && notesName == old(notesName)
    {
      ghost var all := All();
      Apart(all, notes, Repr);
      SeparateAppend(all, notes);
      ValuesAppend(all, notes);
      Rejoin(cats, sections, notes);
      sections := sections + notes;
      Repr := Repr + Owned(notes);
    }

    method NameMeeting(name: string)
      requires Valid()
      modifies this`meetingName
      ensures Valid() && Value() == old(Value()).(meetingName := Named(old(meetingName), name))
    {
      if name != "" { meetingName := name; }
    }

    method NameNotes(name: string)
      requires Valid()
      modifies this`notesName
      ensures Valid() && Value() == old(Value()).(notesName := Named(old(notesName), name))
    {
      if name != "" { notesName := name; }
    }

    /** What `process_transcript_background` does with one parsed chunk. */
    method TakeChunk(c: Chunk)
      requires Valid() && |c.categories| == CATEGORIES
      modifies Repr
      ensures Valid() && fresh(Repr - old(Repr))
      ensures Value() == WithChunk(old(Value()), c)
    {
      NameMeeting(c.meetingName);
      LoadCategories(c);
      LoadNotes(c);
      NameNotes(c.notesName);
    }

    method LoadCategories(c: Chunk)
      requires Valid() && |c.categories| == CATEGORIES
      modifies Repr
      ensures Valid() && fresh(Repr - old(Repr)) && old(Repr) <= Repr
      ensures Value() == WithCategories(old(Value()), c, |c.categories|)
    {
      ghost var before := Value();
      var ds := LoadSections(c.categories);
      assert Value() == before;
      TakeCategories(ds, c);
    }

    method LoadNotes(c: Chunk)
      requires Valid()
      modifies this
      ensures Valid() && fresh(Repr - old(Repr)) && old(Repr) <= Repr
      ensures Value() == WithNotes(old(Value()), c.sections)
    {
      ghost var before := Value();
      var notes := LoadSections(c.sections);
      assert Value() == before;
      TakeNotes(notes);
    }
  }

  lemma {:induction false} OneSection(s: SectionDict, value: Section)
    requires ValueOf(s) == value
    ensures ValuesOf([s]) == [value] && Owned([s]) == {s, s.blocks}
  {}

  lemma {:induction false} Rejoin<T>(a: seq<T>, b: seq<T>, c: seq<T>)
    ensures a + (b + c) == (a + b) + c
  {}

  /** Dictionaries and lists inside `repr` and outside. */
  lemma {:induction false} Apart(all: seq<SectionDict>, notes: seq<SectionDict>, repr: set<object>)
    requires forall s :: s in all ==> s in repr && s.blocks in repr
    requires forall s :: s in notes ==> s !in repr && s.blocks !in repr
    ensures forall s, t :: s in all && t in notes ==> s != t && s.blocks != t.blocks
  {}

  lemma {:induction false} SeparateAppend(all: seq<SectionDict>, notes: seq<SectionDict>)
    requires Separate(all) && Separate(notes)
    requires forall s, t :: s in all && t in notes ==> s != t && s.blocks != t.blocks
    ensures Separate(all + notes)
  {
    var both := all + notes;
    forall i, j | 0 <= i < j < |both| ensures both[i] != both[j] && both[i].blocks != both[j].blocks {
      if i < |all| <= j {
        assert both[i] == all[i] && both[j] == notes[j - |all|];
        assert all[i] in all && notes[j - |all|] in notes;
      } else if j < |all| {
        assert both[i] == all[i] && both[j] == all[j];
      } else {
        assert both[i] == notes[i - |all|] && both[j] == notes[j - |all|];
      }
    }
  }

  lemma {:induction false} ValuesAppend(a: seq<SectionDict>, b: seq<SectionDict>)
    ensures ValuesOf(a + b) == ValuesOf(a) + ValuesOf(b)
  {}

  lemma {:induction false} TailAppend<T>(s: seq<T>, n: nat, t: seq<T>)
    requires n <= |s|
    ensures (s + t)[..n] == s[..n] && (s + t)[n..] == s[n..] + t
  {}

  lemma {:induction false} UpdateTail<T>(s: seq<T>, n: nat, i: nat, x: T)
    requires n + i <= |s|
    ensures n + i < |s| ==> s[n + i := x] == s[..n] + s[n..][i := x]
    ensures s + [x] == s[..n] + (s[n..] + [x])
  {}

  lemma {:induction false} SplitAt<T>(s: seq<T>, n: nat, k: nat, x: T)
    requires k < n <= |s|
    ensures s[k := x][..n] == s[..n][k := x] && s[k := x][n..] == s[n..]
  {}

  /** Sections without blocks get an empty list of their own. */
  method EnsureBlocks(notes: seq<SectionDict>)
    requires Separate(notes)
    modifies notes
    ensures Separate(notes) && ValuesOf(notes) == old(ValuesOf(notes))
    ensures forall s :: s in notes ==> s.blocks == old(s.blocks) || fresh(s.blocks)
  {
    for i := 0 to |notes|
      invariant Separate(notes)
      invariant forall j :: 0 <= j < |notes| ==> ValueOf(notes[j]) == old(ValueOf(notes[j]))
      invariant forall j :: 0 <= j < |notes| ==> notes[j].blocks == old(notes[j].blocks) || fresh(notes[j].blocks)
    {
      if notes[i].blocks.items == [] { notes[i].blocks := new BlockList([]); }
    }
  }

  lemma {:induction false} FirstTitledIs(sections: seq<Section>, title: string, i: nat)
    requires i <= |sections| && (i < |sections| ==> sections[i].title == title)
    requires forall j :: 0 <= j < i ==> sections[j].title != title
    ensures FirstTitled(sections, title) == i
  {
    var r := FirstTitled(sections, title);
  }

  /** The aggregation over all chunks. */
  method AggregateChunks(chunks: seq<Chunk>) returns (f: FinalSummary)
    requires WellShaped(chunks)
    ensures f.Valid() && f.Value() == Aggregate(chunks, |chunks|)
  {
    f := new FinalSummary();
    for i := 0 to |chunks|
      invariant f.Valid() && fresh(f.Repr) && f.Value() == Aggregate(chunks, i)
    {
      f.TakeChunk(chunks[i]);
    }
  }

  // ----------------------------------------------------------- conservation

  function CountIn(blocks: seq<Block>, b: Block): nat { multiset(blocks)[b] }

  /** How often a block occurs in the first `n` sections. */
  function CountFirst(ss: seq<Section>, n: nat, b: Block): nat
    requires n <= |ss|
  {
    if n == 0 then 0 else CountFirst(ss, n - 1, b) + CountIn(ss[n - 1].blocks, b)
  }

  function Count(ss: seq<Section>, b: Block): nat { CountFirst(ss, |ss|, b) }

  lemma {:induction false} CountPrefix(a: seq<Section>, c: seq<Section>, n: nat, b: Block)
    requires n <= |a| && n <= |c| && forall i :: 0 <= i < n ==> a[i] == c[i]
    ensures CountFirst(a, n, b) == CountFirst(c, n, b)
  {
    if n > 0 { CountPrefix(a, c, n - 1, b); }
  }

  lemma {:induction false} CountUpdate(ss: seq<Section>, i: nat, more: seq<Block>, n: nat, b: Block)
    requires i < |ss| && n <= |ss|
    ensures CountFirst(ss[i := Extended(ss[i], more)], n, b)
            == CountFirst(ss, n, b) + if i < n then CountIn(more, b) else 0
  {
    if n > 0 { CountUpdate(ss, i, more, n - 1, b); }
  }

  lemma {:induction false} CountAppend(ss: seq<Section>, ts: seq<Section>, n: nat, b: Block)
    requires n <= |ts|
    ensures CountFirst(ss + ts, |ss| + n, b) == Count(ss, b) + CountFirst(ts, n, b)
  {
    if n == 0 { CountPrefix(ss + ts, ss, |ss|, b); } else { CountAppend(ss, ts, n - 1, b); }
  }

  lemma {:induction false} CountFiled(ss: seq<Section>, s: Section, b: Block)
    ensures Count(Filed(ss, s), b) == Count(ss, b) + CountIn(s.blocks, b)
  {
    var i := FirstTitled(ss, s.title);
    if i < |ss| {
      CountUpdate(ss, i, s.blocks, |ss|, b);
    } else {
      CountAppend(ss, [s], 1, b);
      assert CountFirst([s], 1, b) == CountFirst([s], 0, b) + CountIn(s.blocks, b);
    }
  }

  lemma {:induction false} CountCategories(f: Summary, c: Chunk, n: nat, b: Block)
    requires n <= |c.categories| == |f.categories|
    ensures Count(WithCategories(f, c, n).sections, b) == Count(f.sections, b) + CountFirst(c.categories, n, b)
  {
    if n > 0 {
      CountCategories(f, c, n - 1, b);
      CountFiled(WithCategories(f, c, n - 1).sections, c.categories[n - 1], b);
    }
  }

  /** How often a block occurs in the first `n` chunks, in categories and notes together. */
  function CountChunks(chunks: seq<Chunk>, n: nat, b: Block): nat
    requires n <= |chunks|
  {
    if n == 0 then 0
    else CountChunks(chunks, n - 1, b) + Count(chunks[n - 1].categories, b) + Count(chunks[n - 1].sections, b)
  }

  lemma {:induction false} ChunkConserves(f: Summary, c: Chunk, b: Block)
    requires |c.categories| == |f.categories|
    ensures Count(WithChunk(f, c).sections, b)
         == Count(f.sections, b) + Count(c.categories, b) + Count(c.sections, b)
  {
    var named := f.(meetingName := Named(f.meetingName, c.meetingName));
    CountCategories(named, c, |c.categories|, b);
    CountAppend(WithCategories(named, c, |c.categories|).sections, c.sections, |c.sections|, b);
  }

  /** The notes hold, as a multiset, exactly all category blocks and all notes blocks of all chunks. */
  lemma {:induction false} NotesConserveBlocks(chunks: seq<Chunk>, n: nat, b: Block)
    requires n <= |chunks| && WellShaped(chunks)
    ensures Count(Aggregate(chunks, n).sections, b) == CountChunks(chunks, n, b)
  {
    if n > 0 {
      NotesConserveBlocks(chunks, n - 1, b);
      ChunkConserves(Aggregate(chunks, n - 1), chunks[n - 1], b);
    }
  }

  /** The blocks of category `k` in the first `n` chunks, in chunk order. */
  function CategoryBlocks(chunks: seq<Chunk>, n: nat, k: nat): seq<Block>
    requires n <= |chunks| && WellShaped(chunks) && k < CATEGORIES
  {
    if n == 0 then [] else CategoryBlocks(chunks, n - 1, k) + chunks[n - 1].categories[k].blocks
  }

  lemma {:induction false} CategoryTaken(f: Summary, c: Chunk, n: nat, k: nat)
    requires n <= |c.categories| == |f.categories| && k < |f.categories|
    ensures WithCategories(f, c, n).categories[k]
            == if k < n then Extended(f.categories[k], c.categories[k].blocks) else f.categories[k]
  {
    if n > 0 { CategoryTaken(f, c, n - 1, k); }
  }

  /** Each category keeps its title and holds the concatenation of its blocks in chunk order. */
  lemma {:induction false} CategoriesConcatenate(chunks: seq<Chunk>, n: nat, k: nat)
    requires n <= |chunks| && WellShaped(chunks) && k < CATEGORIES
    ensures Aggregate(chunks, n).categories[k] == Section(TITLES[k], CategoryBlocks(chunks, n, k))
  {
    if n > 0 {
      var f, c := Aggregate(chunks, n - 1), chunks[n - 1];
      CategoriesConcatenate(chunks, n - 1, k);
      CategoryTaken(f.(meetingName := Named(f.meetingName, c.meetingName)), c, |c.categories|, k);
    }
  }
}
