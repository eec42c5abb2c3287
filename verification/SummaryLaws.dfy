/** Where the aggregation of chunk summaries (backend/app/main.py) puts blocks and names. */
module SummaryLaws {
  import opened SummaryAggregation

  // ---------------------------------------------------------------- one category

  /** Section `i` is the first of its title. */
  predicate IsFirstTitled(sections: seq<Section>, i: nat) {
    i < |sections| && forall j :: 0 <= j < i ==> sections[j].title != sections[i].title
  }

  predicate HasTitle(sections: seq<Section>, title: string) {
    exists i :: 0 <= i < |sections| && sections[i].title == title
  }

  /** A category's blocks go to the end of the first section of its title, and to a new section only if there is none;
      every other section stays as it is. */
  lemma {:induction false} FiledExactly(sections: seq<Section>, s: Section)
    ensures !HasTitle(sections, s.title) ==> Filed(sections, s) == sections + [s]
    ensures HasTitle(sections, s.title) ==> |Filed(sections, s)| == |sections|
    ensures forall i :: 0 <= i < |sections| ==>
              Filed(sections, s)[i]
              == if sections[i].title == s.title && IsFirstTitled(sections, i)
                 then Section(s.title, sections[i].blocks + s.blocks) else sections[i]
  {
    var f := FirstTitled(sections, s.title);
    if f < |sections| { assert IsFirstTitled(sections, f); }
  }

  // ------------------------------------------------------------------- whole runs

  /** Sections of a later state: the earlier ones are there, with their titles; the first of a title may have got
      more blocks behind its own, the others none. */
  ghost predicate Grown(before: seq<Section>, after: seq<Section>) {
    && |before| <= |after|
    && forall i :: 0 <= i < |before| ==>
         && after[i].title == before[i].title && before[i].blocks <= after[i].blocks
         && (!IsFirstTitled(before, i) ==> after[i] == before[i])
  }

  lemma {:induction false} GrownTrans(a: seq<Section>, b: seq<Section>, c: seq<Section>)
    requires Grown(a, b) && Grown(b, c)
    ensures Grown(a, c)
  {
    forall i | 0 <= i < |a| && !IsFirstTitled(a, i) ensures c[i] == a[i] {
      var j :| 0 <= j < i && a[j].title == a[i].title;
      assert b[j].title == b[i].title;
    }
  }

  lemma {:induction false} FiledGrows(sections: seq<Section>, s: Section)
    ensures Grown(sections, Filed(sections, s))
  {
    FiledExactly(sections, s);
  }

  lemma {:induction false} CategoriesGrow(f: Summary, c: Chunk, n: nat)
    requires n <= |c.categories| == |f.categories|
    ensures Grown(f.sections, WithCategories(f, c, n).sections)
  {
    if n > 0 {
      CategoriesGrow(f, c, n - 1);
      FiledGrows(WithCategories(f, c, n - 1).sections, c.categories[n - 1]);
      GrownTrans(f.sections, WithCategories(f, c, n - 1).sections, WithCategories(f, c, n).sections);
    }
  }

  lemma {:induction false} ChunkGrows(f: Summary, c: Chunk)
    requires |c.categories| == |f.categories|
    ensures Grown(f.sections, WithChunk(f, c).sections)
  {
    var named := f.(meetingName := Named(f.meetingName, c.meetingName));
    var g := WithCategories(named, c, |c.categories|);
    CategoriesGrow(named, c, |c.categories|);
    assert Grown(g.sections, g.sections + c.sections);
    GrownTrans(f.sections, g.sections, g.sections + c.sections);
  }

  /** Further chunks keep every section of the notes in its place, and add blocks to first sections only. */
  lemma {:induction false} SectionsOnlyGrow(chunks: seq<Chunk>, m: nat, n: nat)
    requires m <= n <= |chunks| && WellShaped(chunks)
    ensures Grown(Aggregate(chunks, m).sections, Aggregate(chunks, n).sections)
  {
    if m < n {
      SectionsOnlyGrow(chunks, m, n - 1);
      ChunkGrows(Aggregate(chunks, n - 1), chunks[n - 1]);
      GrownTrans(Aggregate(chunks, m).sections, Aggregate(chunks, n - 1).sections, Aggregate(chunks, n).sections);
    }
  }

  // ---------------------------------------------------------- the first of a title

  /** What stands under a title first: nothing yet, or the blocks of its first section. */
  datatype Under = Absent | Blocks(blocks: seq<Block>)

  function UnderTitle(sections: seq<Section>, title: string): Under {
    if sections == [] then Absent
    else if sections[0].title == title then Blocks(sections[0].blocks)
    else UnderTitle(sections[1..], title)
  }

  /** More blocks under the title. */
  function Joined(u: Under, s: Section, title: string): Under {
    if s.title != title then u
    else match u case Absent => Blocks(s.blocks) case Blocks(b) => Blocks(b + s.blocks)
  }

  function JoinedCategories(u: Under, categories: seq<Section>, n: nat, title: string): Under
    requires n <= |categories|
  {
    if n == 0 then u else Joined(JoinedCategories(u, categories, n - 1, title), categories[n - 1], title)
  }

  /** The blocks under a title after `n` chunks: those of each chunk's categories join what is there, and the
      chunk's own notes count only while the title is absent. */
  function Collected(chunks: seq<Chunk>, n: nat, title: string): Under
    requires n <= |chunks| && WellShaped(chunks)
  {
    if n == 0 then Absent
    else
      var c := chunks[n - 1];
      var u := JoinedCategories(Collected(chunks, n - 1, title), c.categories, |c.categories|, title);
      if u == Absent then UnderTitle(c.sections, title) else u
  }

  lemma {:induction false} UnderFirst(sections: seq<Section>, title: string)
    ensures var f := FirstTitled(sections, title);
            UnderTitle(sections, title) == if f < |sections| then Blocks(sections[f].blocks) else Absent
  {
    if sections != [] && sections[0].title != title {
      UnderFirst(sections[1..], title);
      assert FirstTitled(sections, title) == 1 + FirstTitled(sections[1..], title);
    }
  }

  lemma {:induction false} UnderAppend(a: seq<Section>, b: seq<Section>, title: string)
    ensures UnderTitle(a + b, title)
         == if UnderTitle(a, title) == Absent then UnderTitle(b, title) else UnderTitle(a, title)
  {
    if a == [] {
      assert a + b == b;
    } else {
      assert (a + b)[1..] == a[1..] + b;
      UnderAppend(a[1..], b, title);
    }
  }

  lemma {:induction false} UnderFiled(sections: seq<Section>, s: Section, title: string)
    ensures UnderTitle(Filed(sections, s), title) == Joined(UnderTitle(sections, title), s, title)
  {
    var f := FirstTitled(sections, s.title);
    if f < |sections| {
      UnderFirst(sections, title);
      UnderFirst(Filed(sections, s), title);
      FirstStays(sections, f, Extended(sections[f], s.blocks), title);
    } else {
      UnderAppend(sections, [s], title);
      UnderFirst(sections, s.title);
      assert UnderTitle([s][1..], title) == Absent;
    }
  }

  lemma {:induction false} FirstStays(sections: seq<Section>, f: nat, s: Section, title: string)
    requires f < |sections| && s.title == sections[f].title
    ensures FirstTitled(sections[f := s], title) == FirstTitled(sections, title)
  {
    FirstTitledIs(sections[f := s], title, FirstTitled(sections, title));
  }

  lemma {:induction false} UnderCategories(f: Summary, c: Chunk, n: nat, title: string)
    requires n <= |c.categories| == |f.categories|
    ensures UnderTitle(WithCategories(f, c, n).sections, title)
         == JoinedCategories(UnderTitle(f.sections, title), c.categories, n, title)
  {
    if n > 0 {
      UnderCategories(f, c, n - 1, title);
      UnderFiled(WithCategories(f, c, n - 1).sections, c.categories[n - 1], title);
    }
  }

  /** The first section of a title holds, in order, the blocks that the chunks have for this title. */
  lemma {:induction false} FirstSectionCollects(chunks: seq<Chunk>, n: nat, title: string)
    requires n <= |chunks| && WellShaped(chunks)
    ensures UnderTitle(Aggregate(chunks, n).sections, title) == Collected(chunks, n, title)
  {
    if n > 0 {
      var (f, c) := (Aggregate(chunks, n - 1), chunks[n - 1]);
      var named := f.(meetingName := Named(f.meetingName, c.meetingName));
      FirstSectionCollects(chunks, n - 1, title);
      UnderCategories(named, c, |c.categories|, title);
      UnderAppend(WithCategories(named, c, |c.categories|).sections, c.sections, title);
    }
  }

  // -------------------------------------------------------------------------- names

  /** The names that the first `n` chunks give. */
  function MeetingNames(chunks: seq<Chunk>): (r: seq<string>)
    ensures |r| == |chunks|
  {
    seq(|chunks|, i requires 0 <= i < |chunks| => chunks[i].meetingName)
  }

  function NotesNames(chunks: seq<Chunk>): (r: seq<string>)
    ensures |r| == |chunks|
  {
    seq(|chunks|, i requires 0 <= i < |chunks| => chunks[i].notesName)
  }

  /** `name` is the last of the first `n` names that is not empty, if there is any. */
  predicate IsLastGiven(name: string, names: seq<string>, n: nat)
    requires n <= |names|
  {
    if forall i :: 0 <= i < n ==> names[i] == "" then name == ""
    else exists i :: 0 <= i < n && names[i] == name != "" && forall j :: i < j < n ==> names[j] == ""
  }

  lemma {:induction false} LastGivenStep(name: string, names: seq<string>, n: nat)
    requires n < |names| && IsLastGiven(name, names, n)
    ensures IsLastGiven(Named(name, names[n]), names, n + 1)
  {
    if names[n] != "" {
      assert names[n] == Named(name, names[n]);
    } else if !(forall i :: 0 <= i < n ==> names[i] == "") {
      var i :| 0 <= i < n && names[i] == name != "" && forall j :: i < j < n ==> names[j] == "";
      assert names[i] == Named(name, names[n]);
    }
  }

  lemma {:induction false} CategoriesKeepNames(f: Summary, c: Chunk, n: nat)
    requires n <= |c.categories| == |f.categories|
    ensures WithCategories(f, c, n).meetingName == f.meetingName && WithCategories(f, c, n).notesName == f.notesName
  {
    if n > 0 { CategoriesKeepNames(f, c, n - 1); }
  }

  /** The meeting name and the name of the notes are the last ones given by a chunk. */
  lemma {:induction false} NamesAreLast(chunks: seq<Chunk>, n: nat)
    requires n <= |chunks| && WellShaped(chunks)
    ensures IsLastGiven(Aggregate(chunks, n).meetingName, MeetingNames(chunks), n)
    ensures IsLastGiven(Aggregate(chunks, n).notesName, NotesNames(chunks), n)
  {
    if n > 0 {
      NamesAreLast(chunks, n - 1);
      var (f, c) := (Aggregate(chunks, n - 1), chunks[n - 1]);
      LastGivenStep(f.meetingName, MeetingNames(chunks), n - 1);
      LastGivenStep(f.notesName, NotesNames(chunks), n - 1);
      CategoriesKeepNames(f.(meetingName := Named(f.meetingName, c.meetingName)), c, |c.categories|);
    }
  }
}
