/** The generated API-reference directory, kept in step with the built pages (tools/api_reference.py). */
module Reference {
  import Text

  const MARKER := "<!-- generated by " + ("tools.api_reference; " + "do not edit -->")
  const GENERATED := MARKER + "\n"

  type Files = map<string, string>

  /** What the glob `*.md` matches. */
  predicate IsPage(name: string) {
    |name| >= 3 && name[|name| - 3..] == ".md"
  }

  predicate IsGenerated(content: string) {
    GENERATED <= content
  }

  /** `with_suffix(".md.tmp")` of a page's name. */
  function Temporary(name: string): string {
    name + ".tmp"
  }

  /** Built pages: markdown names, each starting with the generated header. */
  predicate Built(pages: Files) {
    (forall n :: n in pages ==> IsPage(n)) && forall n :: n in pages ==> IsGenerated(pages[n])
  }

  /** A generated page that is no longer built. */
  predicate Orphan(files: Files, pages: Files, n: string) {
    n in files && IsPage(n) && n !in pages && IsGenerated(files[n])
  }

  /** The directory after a write: temporaries are gone, pages are as built, orphans are removed, the rest stays. */
  function Written(files: Files, pages: Files): Files {
    map n | n in files.Keys + pages.Keys && (n in pages || Stays(files, pages, n)) ::
      if n in pages then pages[n] else files[n]
  }

  predicate Stays(files: Files, pages: Files, n: string) {
    n in files && !Orphan(files, pages, n) && !IsTemporary(pages, n)
  }

  /** The name a page is staged under while it is written. */
  predicate IsTemporary(pages: Files, n: string) {
    exists p :: p in pages && n == Temporary(p)
  }

  lemma TemporaryIsNoPage(name: string)
    ensures !IsPage(Temporary(name))
    ensures forall other :: Temporary(other) == Temporary(name) ==> other == name
  {
    var t := Temporary(name);
    assert t[|t| - 1] == 'p';
    forall other | Temporary(other) == Temporary(name) ensures other == name {
      assert Temporary(other)[..|other|] == other && t[..|name|] == name;
    }
  }

  class Directory {
    var files: Files

    constructor (initial: Files)
      ensures files == initial
    {
      files := initial;
    }

    method WriteText(name: string, content: string)
      modifies this
      ensures files == old(files)[name := content]
    {
      files := files[name := content];
    }

    /** Rename over whatever stands at the destination. */
    method Rename(name: string, destination: string)
      requires name in files && name != destination
      modifies this
      ensures files == old(files)[destination := old(files)[name]] - {name}
    {
      files := files[destination := files[name]] - {name};
    }

    method Unlink(name: string)
      modifies this
      ensures files == old(files) - {name}
    {
      files := files - {name};
    }

    /** Regenerate the directory: stage and rename each page, then remove generated pages that are no longer built. */
    method Write(pages: Files)
      requires forall n :: n in pages ==> IsPage(n)
      modifies this
      ensures files == Written(old(files), pages)
    {
      ghost var before := files;
      StagePages(pages);
      ghost var staged := files;
      SweepOrphans(pages);
      SweptIsWritten(before, pages, staged, files);
    }

    method StagePages(pages: Files)
      requires forall n :: n in pages ==> IsPage(n)
      modifies this
      ensures Staged(old(files), pages, pages.Keys, files)
    {
      ghost var before, done := files, {};
      var todo := pages.Keys;
      while todo != {}
        invariant todo !! done && todo + done == pages.Keys
        invariant Staged(before, pages, done, files)
      {
        var filename :| filename in todo;
        ghost var here := files;
        StagePage(filename, pages[filename]);
        StagesOne(before, pages, done, here, files, filename);
        todo, done := todo - {filename}, done + {filename};
      }
    }

    method SweepOrphans(pages: Files)
      modifies this
      ensures Swept(old(files), pages, {}, files)
    {
      var names := set n | n in files && IsPage(n);
      while names != {}
        invariant names <= old(files).Keys
        invariant Swept(old(files), pages, names, files)
        decreases names
      {
        var name :| name in names;
        if name !in pages && IsGenerated(files[name]) {
          Unlink(name);
        }
        names := names - {name};
      }
    }

    /** Write one page beside its place, then move it over. */
    method StagePage(filename: string, content: string)
      requires IsPage(filename)
      modifies this
      ensures files == old(files)[Temporary(filename) := content][filename := content] - {Temporary(filename)}
    {
      var temporary := Temporary(filename);
      TemporaryIsNoPage(filename);
      WriteText(temporary, content);
      Rename(temporary, filename);
    }

    /** Is what is generated here exactly what would be built? */
    method Check(pages: Files) returns (ok: bool)
      ensures ok <==> InStep(files, pages)
    {
      var current := map n | n in files && IsPage(n) :: files[n];
      var generated := map n | n in current && IsGenerated(current[n]) :: current[n];
      ok := generated == pages;
    }
  }

  /** The generated pages of the directory are the built ones. */
  predicate InStep(files: Files, pages: Files) {
    (map n | n in files && IsPage(n) && IsGenerated(files[n]) :: files[n]) == pages
  }

  ghost predicate Staged(before: Files, pages: Files, done: set<string>, files: Files) {
    (forall n :: n in done && n in pages ==> n in files && files[n] == pages[n]) &&
    forall n :: n !in done ==>
      if exists p :: p in done && n == Temporary(p) then n !in files
      else (n in files <==> n in before) && (n in files && n in before ==> files[n] == before[n])
  }

  lemma StagesOne(before: Files, pages: Files, done: set<string>, files: Files, after: Files, p: string)
    requires Staged(before, pages, done, files) && done <= pages.Keys && p in pages && p !in done
    requires forall n :: n in pages ==> IsPage(n)
    requires after == files[Temporary(p) := pages[p]][p := pages[p]] - {Temporary(p)}
    ensures Staged(before, pages, done + {p}, after)
  {
    TemporaryIsNoPage(p);
    forall n | n !in done + {p}
      ensures if exists q :: q in done + {p} && n == Temporary(q) then n !in after
        else (n in after <==> n in before) && (n in after && n in before ==> after[n] == before[n])
    {
      if exists q :: q in done + {p} && n == Temporary(q) {
        var q :| q in done + {p} && n == Temporary(q);
        if q != p {
          assert exists q :: q in done && n == Temporary(q);
        }
      } else {
        assert n != Temporary(p);
        assert !exists q :: q in done && n == Temporary(q);
      }
    }
  }

  ghost predicate Swept(staged: Files, pages: Files, names: set<string>, files: Files) {
    (forall n :: n in files ==> n in staged && files[n] == staged[n]) &&
    forall n :: n in staged ==> (n in files <==> n in names || !Orphan(staged, pages, n))
  }

  lemma SweptIsWritten(before: Files, pages: Files, staged: Files, files: Files)
    requires (forall n :: n in pages ==> IsPage(n)) && Staged(before, pages, pages.Keys, staged)
    requires Swept(staged, pages, {}, files)
    ensures files == Written(before, pages)
  {
    var written := Written(before, pages);
    forall n ensures (n in files <==> n in written) && (n in files && n in written ==> files[n] == written[n]) {
      if n !in pages {
        assert IsTemporary(pages, n) <==> exists p :: p in pages.Keys && n == Temporary(p);
      }
    }
  }

  // ---------------------------------------------------------------- what a write leaves

  /** After a write the check passes exactly when every built page carries the header. */
  lemma WriteThenCheck(files: Files, pages: Files)
    requires forall n :: n in pages ==> IsPage(n)
    ensures InStep(Written(files, pages), pages) <==> Built(pages)
  {
    var written := Written(files, pages);
    var generated := map n | n in written && IsPage(n) && IsGenerated(written[n]) :: written[n];
    if Built(pages) {
      forall n ensures n in generated <==> n in pages {}
      assert generated == pages;
    }
    if InStep(written, pages) {
      forall n | n in pages ensures IsGenerated(pages[n]) {
        assert n in generated;
      }
    }
  }

  /** Pages that do not start with the header are left alone, generated ones that are no longer built are gone. */
  lemma WriteTouchesOnlyGenerated(files: Files, pages: Files, n: string)
    requires IsPage(n) && n in files && n !in pages
    ensures n in Written(files, pages) <==> !IsGenerated(files[n])
    ensures n in Written(files, pages) ==> Written(files, pages)[n] == files[n]
  {
    PageIsNoTemporary(pages, n);
  }

  /** A second write of the same pages changes nothing. */
  lemma WriteIsIdempotent(files: Files, pages: Files)
    ensures Written(Written(files, pages), pages) == Written(files, pages)
  {
  }

  /** Writing other pages first does not show: the directory converges on what was written last. */
  lemma LastWriteWins(files: Files, first: Files, last: Files)
    requires Built(first) && Built(last)
    ensures InStep(Written(Written(files, first), last), last)
    ensures forall n :: IsPage(n) && IsPageOfHand(files, first, last, n) ==>
      n in Written(Written(files, first), last) && Written(Written(files, first), last)[n] == files[n]
  {
    WriteThenCheck(Written(files, first), last);
    forall n | IsPage(n) && IsPageOfHand(files, first, last, n)
      ensures n in Written(Written(files, first), last) && Written(Written(files, first), last)[n] == files[n]
    {
      PageIsNoTemporary(first, n);
      PageIsNoTemporary(last, n);
    }
  }

  predicate IsPageOfHand(files: Files, first: Files, last: Files, n: string) {
    n in files && n !in first && n !in last && !IsGenerated(files[n])
  }

  lemma PageIsNoTemporary(pages: Files, n: string)
    requires IsPage(n)
    ensures !IsTemporary(pages, n)
  {
    forall p | p in pages ensures n != Temporary(p) {
      TemporaryIsNoPage(p);
    }
  }

  // ---------------------------------------------------------------- the header the pages carry

  /** `"\n\n".join([GENERATED.rstrip()] + blocks) + "\n"`, the shape every built page has. */
  function Page(blocks: seq<string>): string {
    Text.Join("\n\n", [Text.StripRight(GENERATED, Text.IsSpace)] + blocks) + "\n"
  }

  lemma PagesCarryTheHeader(blocks: seq<string>)
    ensures IsGenerated(Page(blocks))
  {
    var first := Text.StripRight(GENERATED, Text.IsSpace);
    HeaderStrips();
    var parts := [first] + blocks;
    if blocks == [] {
      assert Text.Join("\n\n", parts) == MARKER;
    } else {
      assert parts[1..] == blocks;
      assert Text.Join("\n\n", parts) == MARKER + "\n\n" + Text.Join("\n\n", blocks);
    }
  }

  lemma HeaderStrips()
    ensures Text.StripRight(GENERATED, Text.IsSpace) == MARKER
  {
    assert MARKER[|MARKER| - 1] == '>';
    Text.StripRightPadded(MARKER, "\n", Text.IsSpace);
  }

  // ---------------------------------------------------------------- names

  /** What is a page is told by the end of the name alone. */
  lemma PagesEndInMd(name: string)
    ensures IsPage(name) <==> exists stem: string :: name == stem + ".md"
  {
    if IsPage(name) {
      assert name == name[..|name| - 3] + ".md";
    }
    if stem: string :| name == stem + ".md" {
      assert name[|name| - 3..] == ".md";
    }
  }

  /** A file that is no page outlives a write, unless it has the name that some page is staged under. */
  lemma OtherFilesStay(files: Files, pages: Files, n: string)
    requires (forall p :: p in pages ==> IsPage(p)) && n in files && !IsPage(n)
    ensures n in Written(files, pages) <==> forall p :: p in pages ==> n != p + ".tmp"
    ensures n in Written(files, pages) ==> Written(files, pages)[n] == files[n]
  {
    assert IsTemporary(pages, n) <==> exists p :: p in pages && n == Temporary(p);
    assert forall p :: Temporary(p) == p + ".tmp";
  }

  /** Every built page is there afterwards as built, and nothing new beside them. */
  lemma PagesAreWritten(files: Files, pages: Files, n: string)
    ensures n in pages ==> n in Written(files, pages) && Written(files, pages)[n] == pages[n]
    ensures n in Written(files, pages) ==> n in pages || n in files
  {
  }

  /** What counts as generated is what starts with the line that says so. */
  lemma GeneratedSaysSo(content: string)
    ensures IsGenerated(content) <==> exists rest: string :: content == MARKER + "\n" + rest
  {
    if IsGenerated(content) {
      assert content == GENERATED + content[|GENERATED|..];
    }
  }

  lemma MarkerIsOneLine()
    ensures '\n' !in MARKER
  {
  }

  /** Apart from the last line feed, a page is its header and its blocks, with an empty line between any two. */
  lemma PageIsBlocks(blocks: seq<string>)
    requires forall i :: 0 <= i < |blocks| ==> Text.Separable(blocks[i], "\n\n")
    ensures var p := Page(blocks);
      p != "" && p[|p| - 1] == '\n' && Text.Split(p[..|p| - 1], "\n\n") == [MARKER] + blocks
  {
    HeaderStrips();
    MarkerIsOneLine();
    Text.FreeIsSeparable(MARKER, "\n\n");
    Text.SplitJoin([MARKER] + blocks, "\n\n");
    var joined := Text.Join("\n\n", [MARKER] + blocks);
    assert (joined + "\n")[..|joined|] == joined;
  }
}
