// Applying a revised response (src/fastdyn/llm/handlers.py:65-138, patch.py:29-105): blocks are
// grouped by file, every group is applied in memory, and only then are the files written.
module Patching {
  import opened Options
  import opened PyString
  import opened SearchReplace

  type Files = map<string, string>

  /** A patched content, or the index of the block that failed (0 when the file is missing). */
  datatype Patched = Content(text: string) | Failed(index: nat)

  datatype Outcome =
    | Success
    | ParseFailed(error: ParseError)
    | PatchFailed(index: nat)
    | NoOutputPath              // indexing an empty path list

  // ----- which file a block goes to -----

  /** What follows the last slash of the path is `base`. */
  predicate EndsWithName(path: string, base: string) {
    && '/' !in base && |base| <= |path|
    && (var n := |path| - |base|; path[n..] == base && (n > 0 ==> path[n - 1] == '/'))
  }

  /** The first path with that name at its end, the number of paths if there is none. */
  ghost function FirstNamed(paths: seq<string>, file: string): (i: nat)
    ensures i <= |paths|
    ensures i < |paths| ==> EndsWithName(paths[i], file)
    ensures forall j | 0 <= j < i :: !EndsWithName(paths[j], file)
  {
    if paths == [] || EndsWithName(paths[0], file) then 0 else 1 + FirstNamed(paths[1..], file)
  }

  /** The path a block goes to: the first that ends with the file it names, else the first of all. */
  ghost function Target(paths: seq<string>, b: Block): string
    requires paths != []
  {
    var i := FirstNamed(paths, b.file);
    if b.file != "" && i < |paths| then paths[i] else paths[0]
  }

  /** os.path.basename */
  function Basename(path: string): string {
    if path == "" then "" else
      var last := path[|path| - 1];
      if last == '/' then "" else Basename(path[..|path| - 1]) + [last]
  }

  lemma {:induction false} BasenameEnds(path: string)
    ensures EndsWithName(path, Basename(path))
  {
    if path != "" && path[|path| - 1] != '/' {
      var init := path[..|path| - 1];
      assert path == init + [path[|path| - 1]];
      BasenameEnds(init);
      var n := |init| - |Basename(init)|;
      assert path[n..] == init[n..] + [path[|path| - 1]];
    }
  }

  /** A path ends with one name only. */
  lemma NameIsUnique(path: string, a: string, b: string)
    requires EndsWithName(path, a) && EndsWithName(path, b) && |a| <= |b|
    ensures a == b
  {
  }

  lemma BasenameIff(path: string, base: string)
    ensures Basename(path) == base <==> EndsWithName(path, base)
  {
    BasenameEnds(path);
    hide Basename;
    if EndsWithName(path, base) {
      if |base| <= |Basename(path)| {
        NameIsUnique(path, base, Basename(path));
      } else {
        NameIsUnique(path, Basename(path), base);
      }
    }
  }

  /** First-occurrence replacements in order, up to the first search text that is not there. */
  function ApplyAll(text: string, patches: seq<Block>): Patched
    decreases |patches|
  {
    if patches == [] then Content(text)
    else if Find(text, patches[0].search).None? then Failed(patches[0].index)
    else ApplyAll(ReplaceFirst(text, patches[0].search, patches[0].replace), patches[1..])
  }

  /** One more block: an earlier failure stands, a search text that is not there fails with the number of its
      block, and one that is there is replaced. */
  lemma {:induction false} NextBlockApplies(text: string, patches: seq<Block>, k: nat)
    requires k < |patches|
    ensures match ApplyAll(text, patches[..k])
            case Failed(index) => ApplyAll(text, patches) == Failed(index)
            case Content(t) =>
              var b := patches[k];
              if Contains(t, b.search) then ApplyAll(text, patches[..k + 1]) == Content(ReplaceFirst(t, b.search, b.replace))
              else ApplyAll(text, patches) == Failed(b.index)
    decreases k
  {
    hide ReplaceFirst, Contains;
    if k > 0 {
      assert patches[..k][1..] == patches[1..][..k - 1] && patches[..k + 1][1..] == patches[1..][..k];
      if Find(text, patches[0].search).Some? {
        NextBlockApplies(ReplaceFirst(text, patches[0].search, patches[0].replace), patches[1..], k - 1);
      }
    } else {
      assert patches[..0] == [] && patches[..1][1..] == [];
    }
  }

  function ApplyTo(files: Files, path: string, patches: seq<Block>): Patched {
    if path in files then ApplyAll(files[path], patches) else Failed(0)
  }

  // ----- the reference: one block after the other over the whole file map -----

  datatype Edited = Edited(files: Files) | Refused

  ghost function OneByOne(files: Files, paths: seq<string>, patches: seq<Block>): Edited
    requires paths != []
    decreases |patches|
  {
    if patches == [] then Edited(files) else
      var b := patches[0];
      var path := Target(paths, b);
      if path !in files || Find(files[path], b.search).None? then Refused
      else OneByOne(files[path := ReplaceFirst(files[path], b.search, b.replace)], paths, patches[1..])
  }

  /** The blocks that go to one path, in response order. */
  ghost function Own(paths: seq<string>, patches: seq<Block>, path: string): seq<Block>
    requires paths != []
  {
    if patches == [] then [] else
      (if Target(paths, patches[0]) == path then [patches[0]] else []) + Own(paths, patches[1..], path)
  }

  ghost predicate Targeted(paths: seq<string>, patches: seq<Block>, path: string)
    requires paths != []
  {
    exists i :: 0 <= i < |patches| && Target(paths, patches[i]) == path
  }

  /** Every targeted file takes all of its own blocks. */
  ghost predicate AllApply(files: Files, paths: seq<string>, patches: seq<Block>)
    requires paths != []
  {
    forall path :: Targeted(paths, patches, path) ==> ApplyTo(files, path, Own(paths, patches, path)).Content?
  }

  lemma {:induction false} UntargetedOwnsNothing(paths: seq<string>, patches: seq<Block>, path: string)
    requires paths != []
    ensures Own(paths, patches, path) == [] <==> !Targeted(paths, patches, path)
  {
    if patches != [] {
      UntargetedOwnsNothing(paths, patches[1..], path);
      TargetedCons(paths, patches, path);
    }
  }

  lemma TargetedCons(paths: seq<string>, patches: seq<Block>, path: string)
    requires paths != [] && patches != []
    ensures Targeted(paths, patches, path) <==> Target(paths, patches[0]) == path || Targeted(paths, patches[1..], path)
  {
    if Targeted(paths, patches[1..], path) {
      var i :| 0 <= i < |patches[1..]| && Target(paths, patches[1..][i]) == path;
      assert Target(paths, patches[i + 1]) == path;
    }
    if Targeted(paths, patches, path) {
      var i :| 0 <= i < |patches| && Target(paths, patches[i]) == path;
      if i > 0 {
        assert patches[1..][i - 1] == patches[i];
      }
    }
  }

  /** One block first: the other files keep their text and their own blocks. */
  lemma OneBlockFirst(files: Files, paths: seq<string>, patches: seq<Block>, path: string)
    requires paths != [] && patches != []
    requires var q := Target(paths, patches[0]); q in files && Find(files[q], patches[0].search).Some?
    ensures var b, q := patches[0], Target(paths, patches[0]);
            var files' := files[q := ReplaceFirst(files[q], b.search, b.replace)];
            ApplyTo(files, path, Own(paths, patches, path)) == ApplyTo(files', path, Own(paths, patches[1..], path))
  {
    hide Find, ReplaceFirst, Target;
    var own := Own(paths, patches, path);
    if Target(paths, patches[0]) == path {
      assert own == [patches[0]] + Own(paths, patches[1..], path);
      assert own[1..] == Own(paths, patches[1..], path);
    } else {
      assert own == Own(paths, patches[1..], path);
    }
  }

  /**
   * Applying all blocks one by one over the whole file map succeeds exactly when every targeted file
   * takes its own blocks, and leaves each file as its own blocks alone leave it.
   */
  lemma {:induction false} OneByOneIsPerFile(files: Files, paths: seq<string>, patches: seq<Block>)
    requires paths != []
    ensures OneByOne(files, paths, patches).Edited? <==> AllApply(files, paths, patches)
    ensures OneByOne(files, paths, patches).Edited? ==>
              var after := OneByOne(files, paths, patches).files;
              && after.Keys == files.Keys
              && forall path :: path in files ==> Content(after[path]) == ApplyAll(files[path], Own(paths, patches, path))
    decreases |patches|
  {
    hide Find, ReplaceFirst, Target;
    if patches != [] {
      var b := patches[0];
      var q := Target(paths, b);
      var own := Own(paths, patches, q);
      assert own == [b] + Own(paths, patches[1..], q);
      TargetedCons(paths, patches, q);
      if q in files && Find(files[q], b.search).Some? {
        var files' := files[q := ReplaceFirst(files[q], b.search, b.replace)];
        OneByOneIsPerFile(files', paths, patches[1..]);
        forall path
          ensures ApplyTo(files, path, Own(paths, patches, path)) == ApplyTo(files', path, Own(paths, patches[1..], path))
          ensures Targeted(paths, patches, path) <==> path == q || Targeted(paths, patches[1..], path)
        {
          OneBlockFirst(files, paths, patches, path);
          TargetedCons(paths, patches, path);
        }
        UntargetedOwnsNothing(paths, patches[1..], q);
      } else {
        assert Targeted(paths, patches, q) && !ApplyTo(files, q, own).Content?;
      }
    }
  }

  // ----- the implementation -----

  /** An insertion-ordered dict from paths to their blocks. */
  datatype Group = Group(path: string, patches: seq<Block>)

  function GroupIndex(groups: seq<Group>, path: string): (i: nat)
    ensures i <= |groups|
    ensures i < |groups| ==> groups[i].path == path
    ensures forall j | 0 <= j < i :: groups[j].path != path
  {
    if groups == [] then 0 else if groups[0].path == path then 0 else 1 + GroupIndex(groups[1..], path)
  }

  function AddTo(groups: seq<Group>, path: string, b: Block): seq<Group> {
    var i := GroupIndex(groups, path);
    if i < |groups| then groups[i := Group(path, groups[i].patches + [b])] else groups + [Group(path, [b])]
  }

  /** Distinct paths, one group for each targeted path, holding its own blocks in order. */
  ghost predicate Grouped(groups: seq<Group>, paths: seq<string>, patches: seq<Block>)
    requires paths != []
  {
    && (forall i, j | 0 <= i < j < |groups| :: groups[i].path != groups[j].path)
    && (forall i | 0 <= i < |groups| :: groups[i].patches == Own(paths, patches, groups[i].path) && groups[i].patches != [])
    && (forall path :: Targeted(paths, patches, path) ==> GroupIndex(groups, path) < |groups|)
  }

  lemma {:induction false} OwnSnoc(paths: seq<string>, patches: seq<Block>, b: Block, path: string)
    requires paths != []
    ensures Own(paths, patches + [b], path) == Own(paths, patches, path) + if Target(paths, b) == path then [b] else []
    decreases |patches|
  {
    hide Target, Own;
    OwnUnfolds(paths, patches, path);
    OwnUnfolds(paths, patches + [b], path);
    if patches == [] {
      assert patches + [b] == [b] && [b][1..] == [];
      OwnUnfolds(paths, [], path);
    } else {
      assert (patches + [b])[1..] == patches[1..] + [b];
      OwnSnoc(paths, patches[1..], b, path);
    }
  }

  lemma OwnUnfolds(paths: seq<string>, patches: seq<Block>, path: string)
    requires paths != []
    ensures Own(paths, patches, path) ==
            if patches == [] then []
            else (if Target(paths, patches[0]) == path then [patches[0]] else []) + Own(paths, patches[1..], path)
  {
    hide Target;
  }

  lemma AddKeepsGrouped(groups: seq<Group>, paths: seq<string>, patches: seq<Block>, b: Block)
    requires paths != [] && Grouped(groups, paths, patches)
    ensures Grouped(AddTo(groups, Target(paths, b), b), paths, patches + [b])
  {
    hide Target, Own, Targeted;
    var q := Target(paths, b);
    var i := GroupIndex(groups, q);
    var groups' := AddTo(groups, q, b);
    OneMoreBlock(paths, patches, b);
    UntargetedOwnsNothing(paths, patches, q);
    hide GroupIndex;
    forall path | Targeted(paths, patches + [b], path)
      ensures GroupIndex(groups', path) < |groups'|
    {
      var k := if path == q then i else GroupIndex(groups, path);
      assert groups'[k].path == path;
    }
  }

  lemma GroupedAtFirst(paths: seq<string>)
    requires paths != []
    ensures Grouped([], paths, []) && Ordered([], paths, [])
  {
  }

  /** One more block changes what its own path is to take, and makes that path a target. */
  lemma OneMoreBlock(paths: seq<string>, patches: seq<Block>, b: Block)
    requires paths != []
    ensures forall path ::
              && Own(paths, patches + [b], path) == Own(paths, patches, path) + (if Target(paths, b) == path then [b] else [])
              && (Targeted(paths, patches + [b], path) <==> Targeted(paths, patches, path) || path == Target(paths, b))
  {
    hide Target, Own, Targeted;
    forall path
      ensures Own(paths, patches + [b], path) == Own(paths, patches, path) + if Target(paths, b) == path then [b] else []
      ensures Targeted(paths, patches + [b], path) <==> Targeted(paths, patches, path) || path == Target(paths, b)
    {
      OwnSnoc(paths, patches, b, path);
      UntargetedOwnsNothing(paths, patches, path);
      UntargetedOwnsNothing(paths, patches + [b], path);
    }
  }

  /** The files in the order in which the blocks first name them. */
  ghost function Order(paths: seq<string>, patches: seq<Block>): seq<string>
    requires paths != []
  {
    if patches == [] then []
    else
      var before, path := Order(paths, patches[..|patches| - 1]), Target(paths, patches[|patches| - 1]);
      if path in before then before else before + [path]
  }

  ghost predicate Ordered(groups: seq<Group>, paths: seq<string>, patches: seq<Block>)
    requires paths != []
  {
    |groups| == |Order(paths, patches)| && forall i | 0 <= i < |groups| :: groups[i].path == Order(paths, patches)[i]
  }

  lemma AddKeepsOrder(groups: seq<Group>, paths: seq<string>, patches: seq<Block>, b: Block)
    requires paths != [] && Ordered(groups, paths, patches)
    ensures Ordered(AddTo(groups, Target(paths, b), b), paths, patches + [b])
  {
    hide Target;
    assert (patches + [b])[..|patches|] == patches;
    var q, before := Target(paths, b), Order(paths, patches);
    var i := GroupIndex(groups, q);
    assert q in before <==> i < |groups| by {
      if q in before {
        var k :| 0 <= k < |before| && before[k] == q;
        assert groups[k].path == q;
      }
    }
  }

  /** The block that brings a file into the order: all before it go to files earlier in the order. */
  lemma {:induction false} FirstInOrder(paths: seq<string>, patches: seq<Block>, i: nat) returns (k: nat)
    requires paths != [] && i < |Order(paths, patches)|
    ensures k < |patches| && Target(paths, patches[k]) == Order(paths, patches)[i]
    ensures forall j | 0 <= j < k :: Target(paths, patches[j]) in Order(paths, patches)[..i]
  {
    hide Target;
    var init := patches[..|patches| - 1];
    var before := Order(paths, init);
    if i < |before| {
      k := FirstInOrder(paths, init, i);
      assert Order(paths, patches)[..i] == before[..i];
    } else {
      k := |patches| - 1;
      forall j | 0 <= j < k ensures Target(paths, patches[j]) in Order(paths, patches)[..i] {
        OrderHasAll(paths, init, j);
        assert Order(paths, patches)[..i] == before;
      }
    }
  }

  lemma {:induction false} OrderHasAll(paths: seq<string>, patches: seq<Block>, j: nat)
    requires paths != [] && j < |patches|
    ensures Target(paths, patches[j]) in Order(paths, patches)
  {
    hide Target;
    if j < |patches| - 1 {
      OrderHasAll(paths, patches[..|patches| - 1], j);
    }
  }

  /** Block k is the first of its file, whose blocks fail with this number; the files of all earlier blocks take
      theirs. */
  ghost predicate FailsFirst(files: Files, paths: seq<string>, patches: seq<Block>, k: nat, index: nat)
    requires paths != [] && k < |patches|
  {
    && (var path := Target(paths, patches[k]); ApplyTo(files, path, Own(paths, patches, path)) == Failed(index))
    && forall j | 0 <= j < k ::
         var path := Target(paths, patches[j]); ApplyTo(files, path, Own(paths, patches, path)).Content?
  }

  /** Group i is the first that fails, and with this number. */
  ghost predicate GroupFails(files: Files, groups: seq<Group>, i: nat, index: nat) {
    && i < |groups| && ApplyTo(files, groups[i].path, groups[i].patches) == Failed(index)
    && forall j | 0 <= j < i :: ApplyTo(files, groups[j].path, groups[j].patches).Content?
  }

  lemma FailingGroup(files: Files, groups: seq<Group>, paths: seq<string>, patches: seq<Block>, i: nat, index: nat)
    returns (k: nat)
    requires paths != [] && Grouped(groups, paths, patches) && Ordered(groups, paths, patches)
    requires GroupFails(files, groups, i, index)
    ensures k < |patches| && FailsFirst(files, paths, patches, k, index)
  {
    hide Target, Own, ApplyTo;
    k := FirstInOrder(paths, patches, i);
    forall j | 0 <= j < k
      ensures var path := Target(paths, patches[j]); ApplyTo(files, path, Own(paths, patches, path)).Content?
    {
      var path, order := Target(paths, patches[j]), Order(paths, patches);
      var m :| 0 <= m < i && order[..i][m] == path;
      assert groups[m].path == path;
    }
  }

  class Workspace {
    var files: Files

    /** apply_search_replace_patches: the content is rebound once per patch. */
    method ApplySearchReplacePatches(path: string, patches: seq<Block>) returns (r: Patched)
      ensures r == ApplyTo(files, path, patches)
      ensures if path in files then r == ApplyAll(files[path], patches) else r == Failed(0)
    {
      hide Find;
      if path !in files {
        return Failed(0);
      }
      var content := files[path];
      for i := 0 to |patches|
        invariant ApplyAll(files[path], patches) == ApplyAll(content, patches[i..])
      {
        assert patches[i..][1..] == patches[i + 1..];
        if Find(content, patches[i].search).None? {
          return Failed(patches[i].index);
        }
        content := ReplaceFirst(content, patches[i].search, patches[i].replace);
      }
      r := Content(content);
    }

    /** The search through the output paths, with its fall back to the first. */
    static method Route(paths: seq<string>, b: Block) returns (path: string)
      requires paths != []
      ensures path == Target(paths, b)
    {
      hide EndsWithName, Basename;
      if b.file != "" {
        for i := 0 to |paths|
          invariant forall j | 0 <= j < i :: !EndsWithName(paths[j], b.file)
        {
          BasenameIff(paths[i], b.file);
          if Basename(paths[i]) == b.file {
            return paths[i];
          }
        }
      }
      path := paths[0];
    }

    /** The first pass over the blocks: each is put with the others for its path. */
    method GroupByPath(paths: seq<string>, patches: seq<Block>) returns (groups: seq<Group>)
      requires paths != []
      ensures Grouped(groups, paths, patches) && Ordered(groups, paths, patches)
    {
      hide Target, Grouped, AddTo, Ordered;
      groups := [];
      GroupedAtFirst(paths);
      assert patches[..0] == [];
      for i := 0 to |patches|
        invariant Grouped(groups, paths, patches[..i]) && Ordered(groups, paths, patches[..i])
      {
        var path := Route(paths, patches[i]);
        AddKeepsGrouped(groups, paths, patches[..i], patches[i]);
        AddKeepsOrder(groups, paths, patches[..i], patches[i]);
        assert patches[..i] + [patches[i]] == patches[..i + 1];
        groups := AddTo(groups, path, patches[i]);
      }
      assert patches[..|patches|] == patches;
    }

    /** First pass: every group is applied in memory; nothing is written. */
    method ApplyGroups(groups: seq<Group>) returns (failed: bool, index: nat, patched: map<string, string>)
      requires forall i, j | 0 <= i < j < |groups| :: groups[i].path != groups[j].path
      ensures failed <==> exists i :: 0 <= i < |groups| && ApplyTo(files, groups[i].path, groups[i].patches).Failed?
      ensures failed ==> exists i :: GroupFails(files, groups, i, index)
      ensures !failed ==> forall i | 0 <= i < |groups| ::
                groups[i].path in patched && ApplyTo(files, groups[i].path, groups[i].patches) == Content(patched[groups[i].path])
    {
      hide ApplyTo;
      patched := map[];
      for i := 0 to |groups|
        invariant forall j | 0 <= j < i ::
                    groups[j].path in patched && ApplyTo(files, groups[j].path, groups[j].patches) == Content(patched[groups[j].path])
      {
        var content := ApplySearchReplacePatches(groups[i].path, groups[i].patches);
        if content.Failed? {
          assert GroupFails(files, groups, i, content.index);
          return true, content.index, patched;
        }
        patched := patched[groups[i].path := content.text];
      }
      return false, 0, patched;
    }

    /** Second pass: every patched file is written. */
    method WriteAll(groups: seq<Group>, patched: map<string, string>)
      requires forall i | 0 <= i < |groups| :: groups[i].path in patched && groups[i].path in files
      modifies this
      ensures files.Keys == old(files).Keys
      ensures forall path | path in files ::
                files[path] == if GroupIndex(groups, path) < |groups| then patched[path] else old(files)[path]
    {
      hide GroupIndex;
      for i := 0 to |groups|
        invariant files.Keys == old(files).Keys
        invariant forall path | path in files ::
                    files[path] == if GroupIndex(groups, path) < i then patched[path] else old(files)[path]
      {
        var path := groups[i].path;
        forall q: string ensures GroupIndex(groups, q) < i + 1 <==> GroupIndex(groups, q) < i || (q == path && GroupIndex(groups, q) <= i) {
          assert GroupIndex(groups, q) == i ==> groups[i].path == q;
        }
        assert GroupIndex(groups, path) <= i;
        files := files[path := patched[path]];
      }
    }

    /**
     * handle_revised_prompt: all or nothing. On success the files are what applying the blocks one by
     * one over the whole file map gives; otherwise no file has changed, and one by one some block
     * would have failed too.
     */
    method HandleRevisedPrompt(response: string, outputPaths: seq<string>) returns (r: Outcome)
      modifies this
      ensures r.Success? <==>
              Parse(response).Blocks? && outputPaths != [] && OneByOne(old(files), outputPaths, Parse(response).blocks).Edited?
      ensures r.Success? ==> Edited(files) == OneByOne(old(files), outputPaths, Parse(response).blocks)
      ensures !r.Success? ==> files == old(files)
      ensures Parse(response).Malformed? <==> r.ParseFailed?
      ensures r.ParseFailed? ==> r.error == Parse(response).error
      ensures r.NoOutputPath? <==> Parse(response).Blocks? && outputPaths == []
      ensures r.PatchFailed? ==>
                && Parse(response).Blocks? && outputPaths != []
                && exists k | 0 <= k < |Parse(response).blocks| ::
                     FailsFirst(old(files), outputPaths, Parse(response).blocks, k, r.index)
    {
      hide Parse, Target, Own, Find, ApplyAll, OneByOne, Ordered, GroupFails, FailsFirst;
      var parsed := ParseSearchReplaceBlocks(response);
      if parsed.Malformed? {
        return ParseFailed(parsed.error);
      }
      if outputPaths == [] {
        return NoOutputPath;
      }
      var patches := parsed.blocks;
      var groups := GroupByPath(outputPaths, patches);
      OneByOneIsPerFile(files, outputPaths, patches);
      AllApplyIffGroupsApply(files, groups, outputPaths, patches);
      var failed, index, patched := ApplyGroups(groups);
      if failed {
        ghost var i :| GroupFails(files, groups, i, index);
        ghost var k := FailingGroup(files, groups, outputPaths, patches, i, index);
        return PatchFailed(index);
      }
      ghost var before := files;
      WriteAll(groups, patched);
      PerFileDetermines(before, files, groups, outputPaths, patches);
      return Success;
    }
  }

  /** Applying group by group succeeds exactly when every targeted file takes its own blocks. */
  lemma AllApplyIffGroupsApply(files: Files, groups: seq<Group>, paths: seq<string>, patches: seq<Block>)
    requires paths != [] && Grouped(groups, paths, patches)
    ensures AllApply(files, paths, patches) <==>
            forall i | 0 <= i < |groups| :: ApplyTo(files, groups[i].path, groups[i].patches).Content?
  {
    hide ApplyTo, Own;
    if AllApply(files, paths, patches) {
      forall i | 0 <= i < |groups|
        ensures ApplyTo(files, groups[i].path, groups[i].patches).Content?
      {
        UntargetedOwnsNothing(paths, patches, groups[i].path);
      }
    }
    if forall i | 0 <= i < |groups| :: ApplyTo(files, groups[i].path, groups[i].patches).Content? {
      forall path | Targeted(paths, patches, path)
        ensures ApplyTo(files, path, Own(paths, patches, path)).Content?
      {
        var j := GroupIndex(groups, path);
        assert groups[j].path == path;
      }
    }
  }

  lemma UntouchedFiles(files: Files, groups: seq<Group>, paths: seq<string>, patches: seq<Block>)
    requires paths != [] && Grouped(groups, paths, patches)
    ensures forall path | GroupIndex(groups, path) == |groups| :: Own(paths, patches, path) == []
  {
    forall path | GroupIndex(groups, path) == |groups|
      ensures Own(paths, patches, path) == []
    {
      UntargetedOwnsNothing(paths, patches, path);
    }
  }

  /** What one path is left with is what its own blocks make of it. */
  lemma OnePathAgrees(before: Files, after: string, groups: seq<Group>, paths: seq<string>, patches: seq<Block>, path: string)
    requires paths != [] && Grouped(groups, paths, patches) && path in before
    requires var k := GroupIndex(groups, path);
             if k < |groups| then ApplyTo(before, path, groups[k].patches) == Content(after) else after == before[path]
    ensures ApplyAll(before[path], Own(paths, patches, path)) == Content(after)
  {
    hide GroupIndex, Own, Target;
    UntouchedFiles(before, groups, paths, patches);
  }

  /** The written files agree with the reference file by file. */
  lemma PerFileDetermines(before: Files, after: Files, groups: seq<Group>, paths: seq<string>, patches: seq<Block>)
    requires paths != [] && Grouped(groups, paths, patches) && AllApply(before, paths, patches)
    requires after.Keys == before.Keys
    requires forall path | path in before ::
               var k := GroupIndex(groups, path);
               if k < |groups| then ApplyTo(before, path, groups[k].patches) == Content(after[path]) else after[path] == before[path]
    ensures OneByOne(before, paths, patches) == Edited(after)
  {
    hide ApplyAll, OneByOne, Own, GroupIndex, ApplyTo, AllApply, Grouped;
    OneByOneIsPerFile(before, paths, patches);
    forall path | path in before
      ensures ApplyAll(before[path], Own(paths, patches, path)) == Content(after[path])
    {
      OnePathAgrees(before, after[path], groups, paths, patches, path);
    }
    SameTexts(OneByOne(before, paths, patches).files, after, map path | path in before :: ApplyAll(before[path], Own(paths, patches, path)));
  }

  lemma SameTexts(a: Files, b: Files, texts: map<string, Patched>)
    requires a.Keys == b.Keys == texts.Keys
    requires forall path | path in a :: Content(a[path]) == texts[path] == Content(b[path])
    ensures a == b
  {
    forall path | path in a
      ensures a[path] == b[path]
    {
      assert Content(a[path]) == Content(b[path]);
    }
  }
}
