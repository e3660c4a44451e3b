/**
 * The loops of the cells upgrader over view folders. `update_cell_views`
 * rewrites every entry of the cells folder in place, `update_render_cell_calls`
 * rewrites the call sites of every file below the Alchemy views folder, and
 * `move_cell_views` moves the cell views into the elements folder under their
 * new names and removes the cells folder. Reading and writing a file is a
 * lookup and an update of the folder's map.
 */
module ViewFiles {
  import opened Text
  import opened Lists
  import CellViews
  import RenderCalls

  /** A folder as `Dir.glob` lists it: its regular files by path, with their
      content, and its subfolders by path. `present` is `Dir.exist?`. Hidden
      entries, which `Dir.glob` does not list, are not part of the model. */
  class Folder {
    var present: bool
    var files: map<string, string>
    var directories: set<string>

    ghost predicate Valid()
      reads this
    {
      && files.Keys !! directories
      && (!present ==> files == map[] && directories == {})
    }

    constructor (files: map<string, string>, directories: set<string>)
      requires files.Keys !! directories
      ensures Valid() && present && this.files == files && this.directories == directories
    {
      present := true;
      this.files := files;
      this.directories := directories;
    }

    /** `entries` is a listing of the folder: every file and subfolder it
        holds, once each. */
    ghost predicate Listing(entries: seq<string>)
      reads this
    {
      && NoDuplicates(entries)
      && forall p :: p in entries <==> p in files || p in directories
    }
  }

  /** Position of the first subfolder in a listing, or the listing's length. */
  function FirstDirectory(entries: seq<string>, directories: set<string>): (k: nat)
    ensures k <= |entries|
    ensures forall i :: 0 <= i < k ==> entries[i] !in directories
    ensures k < |entries| ==> entries[k] in directories
  {
    if entries == [] || entries[0] in directories then 0
    else 1 + FirstDirectory(entries[1..], directories)
  }

  /** The prefix of a listing before an entry holds neither that entry nor,
      grown by it, anything else. */
  lemma PrefixStep(entries: seq<string>, i: nat)
    requires NoDuplicates(entries) && i < |entries|
    ensures entries[..i + 1] == entries[..i] + [entries[i]]
    ensures entries[i] !in entries[..i]
  {
    assert entries[..i + 1] == entries[..i] + [entries[i]];
    forall j | 0 <= j < i ensures entries[j] != entries[i] { }
  }

  /** Rewriting one more listed file keeps the loop's account of which files
      have been rewritten. */
  lemma RewriteStep(files: map<string, string>, original: map<string, string>, done: seq<string>, view: string, rewrite: string -> string)
    requires files.Keys == original.Keys && view in files && view !in done
    requires forall p :: p in files ==> files[p] == if p in done then rewrite(original[p]) else original[p]
    ensures files[view := rewrite(files[view])].Keys == original.Keys
    ensures forall p :: p in files[view := rewrite(files[view])] ==>
      files[view := rewrite(files[view])][p] == if p in done + [view] then rewrite(original[p]) else original[p]
  {
  }

  /** Passing over a listed subfolder keeps that account as well. */
  lemma SkipStep(files: map<string, string>, original: map<string, string>, done: seq<string>, view: string, rewrite: string -> string)
    requires files.Keys == original.Keys && view !in files
    requires forall p :: p in files ==> files[p] == if p in done then rewrite(original[p]) else original[p]
    ensures forall p :: p in files ==> files[p] == if p in done + [view] then rewrite(original[p]) else original[p]
  {
  }

  /** A listing whose entries are none of them subfolders lists a folder
      without subfolders. */
  lemma NoDirectoryListed(entries: seq<string>, files: map<string, string>, directories: set<string>)
    requires forall p :: p in entries <==> p in files || p in directories
    requires forall j :: 0 <= j < |entries| ==> entries[j] !in directories
    ensures directories == {}
  {
    forall p | p in entries ensures p !in directories {
      var j :| 0 <= j < |entries| && entries[j] == p;
    }
  }

  /** `gsub_file(view, ...)` on every entry of a listing, in order, where
      `rewrite` is what the substitutions do to one file's content.
      `gsub_file` reads its path as a file, so a subfolder raises and ends
      the run: `completed` is false then, and only the files listed before
      it are rewritten. */
  method GsubEachEntry(folder: Folder, entries: seq<string>, rewrite: string -> string) returns (completed: bool)
    requires folder.Valid() && folder.Listing(entries)
    modifies folder
    ensures folder.Valid() && folder.present == old(folder.present) && folder.directories == old(folder.directories)
    ensures completed <==> folder.directories == {}
    ensures folder.files.Keys == old(folder.files).Keys
    ensures forall p :: p in folder.files ==>
      folder.files[p] == if p in entries[..FirstDirectory(entries, folder.directories)]
        then rewrite(old(folder.files)[p]) else old(folder.files)[p]
  {
    var original, directories := folder.files, folder.directories;
    var files := original;
    var k := FirstDirectory(entries, directories);
    var i := 0;
    // The run goes on up to the first subfolder, where `gsub_file` raises.
    while i < k
      invariant 0 <= i <= k
      invariant files.Keys == original.Keys
      invariant forall p :: p in files ==>
        files[p] == if p in entries[..i] then rewrite(original[p]) else original[p]
      modifies {}
    {
      var view := entries[i];
      PrefixStep(entries, i);
      RewriteStep(files, original, entries[..i], view, rewrite);
      files := files[view := rewrite(files[view])];
      i := i + 1;
    }
    folder.files := files;
    completed := k == |entries|;
    if completed {
      NoDirectoryListed(entries, original, directories);
    } else {
      assert entries[k] in directories;
    }
  }

  /** `update_cell_views`: the four substitutions, one `gsub_file` each, on
      every entry of the cells folder in listing order; a missing cells
      folder is skipped. When no subfolder stops the run, no `cell` is left
      in any cell view. */
  method UpdateCellViews(cells: Folder, entries: seq<string>) returns (completed: bool)
    requires cells.Valid() && cells.Listing(entries)
    modifies cells
    ensures cells.Valid() && cells.present == old(cells.present) && cells.directories == old(cells.directories)
    ensures completed <==> cells.directories == {}
    ensures cells.files.Keys == old(cells.files).Keys
    ensures forall p :: p in cells.files ==>
      cells.files[p] == if p in entries[..FirstDirectory(entries, cells.directories)]
        then CellViews.RewriteCellView(old(cells.files)[p]) else old(cells.files)[p]
    ensures completed ==> forall p :: p in cells.files ==> !Contains(cells.files[p], "cell")
  {
    if !cells.present {
      return true;
    }
    completed := GsubEachEntry(cells, entries, CellViews.RewriteCellView);
    if completed {
      assert entries[..FirstDirectory(entries, cells.directories)] == entries;
      forall p | p in cells.files ensures !Contains(cells.files[p], "cell") {
        CellViews.RewriteCellViewLeavesNoCell(old(cells.files)[p]);
      }
    }
  }

  /** Read, rewrite and write back every regular file of a listing, in
      order; subfolders are skipped. */
  method RewriteEachFile(folder: Folder, entries: seq<string>, rewrite: string -> string)
    requires folder.Valid() && folder.Listing(entries)
    modifies folder
    ensures folder.Valid() && folder.present == old(folder.present) && folder.directories == old(folder.directories)
    ensures folder.files.Keys == old(folder.files).Keys
    ensures forall p :: p in folder.files ==> folder.files[p] == rewrite(old(folder.files)[p])
  {
    var original, directories := folder.files, folder.directories;
    var files := original;
    var i := 0;
    while i < |entries|
      invariant 0 <= i <= |entries|
      invariant files.Keys == original.Keys
      invariant forall p :: p in files ==>
        files[p] == if p in entries[..i] then rewrite(original[p]) else original[p]
      modifies {}
    {
      var view := entries[i];
      PrefixStep(entries, i);
      if view in directories {
        SkipStep(files, original, entries[..i], view, rewrite);
      } else {
        RewriteStep(files, original, entries[..i], view, rewrite);
        var content := files[view];
        files := files[view := rewrite(content)];
      }
      i := i + 1;
    }
    assert entries[..i] == entries;
    folder.files := files;
  }

  /** `update_render_cell_calls`: both call-site rewrites on every file
      below the views folder; subfolders are skipped. Every file is written
      back, and one without `render_cell` and `from_cell` keeps its content. */
  method UpdateRenderCellCalls(views: Folder, entries: seq<string>, migrate: string -> string)
    requires views.Valid() && views.Listing(entries)
    modifies views
    ensures views.Valid() && views.present == old(views.present) && views.directories == old(views.directories)
    ensures views.files.Keys == old(views.files).Keys
    ensures forall p :: p in views.files ==> views.files[p] == RenderCalls.RewriteCallSites(old(views.files)[p], migrate)
    ensures forall p :: p in views.files && !Contains(old(views.files)[p], "render_cell") && !Contains(old(views.files)[p], "from_cell") ==>
      views.files[p] == old(views.files)[p]
  {
    RewriteEachFile(views, entries, content => RenderCalls.RewriteCallSites(content, migrate));
    forall p | p in views.files && !Contains(old(views.files)[p], "render_cell") && !Contains(old(views.files)[p], "from_cell")
      ensures views.files[p] == old(views.files)[p]
    {
      RenderCalls.RewriteCallSitesUnchanged(old(views.files)[p], migrate);
    }
  }

  /** The files of the elements folder once the cell views `names` have been
      moved in, one after the other: each lands under its new name, and a
      later view overwrites an earlier one of the same new name, as
      `FileUtils.mv` does. */
  function MovedInto(target: map<string, string>, source: map<string, string>, names: seq<string>): (r: map<string, string>)
    requires forall n :: n in names ==> n in source
    ensures forall k :: k in r <==> k in target || exists n :: n in names && CellViews.MovedViewName(n) == k
    decreases |names|
  {
    if names == [] then target
    else
      var n := names[|names| - 1];
      var before := MovedInto(target, source, names[..|names| - 1]);
      assert forall m :: m in names <==> m in names[..|names| - 1] || m == n;
      before[CellViews.MovedViewName(n) := source[n]]
  }

  /** A moved view keeps its content under its new name unless a view
      listed after it takes the same name. */
  lemma {:induction false} MovedIntoKeepsContent(target: map<string, string>, source: map<string, string>, names: seq<string>, i: nat)
    requires forall n :: n in names ==> n in source
    requires i < |names|
    requires forall j :: i < j < |names| ==> CellViews.MovedViewName(names[j]) != CellViews.MovedViewName(names[i])
    ensures MovedInto(target, source, names)[CellViews.MovedViewName(names[i])] == source[names[i]]
    decreases |names|
  {
    if i < |names| - 1 {
      var init := names[..|names| - 1];
      forall j | i < j < |init| ensures CellViews.MovedViewName(init[j]) != CellViews.MovedViewName(init[i]) {
        assert init[j] == names[j];
      }
      MovedIntoKeepsContent(target, source, init, i);
    }
  }

  /** A file of the elements folder that no moved view is renamed to keeps its content. */
  lemma {:induction false} MovedIntoKeepsOthers(target: map<string, string>, source: map<string, string>, names: seq<string>, k: string)
    requires forall n :: n in names ==> n in source
    requires k in target && forall n :: n in names ==> CellViews.MovedViewName(n) != k
    ensures MovedInto(target, source, names)[k] == target[k]
    decreases |names|
  {
    if names != [] {
      MovedIntoKeepsOthers(target, source, names[..|names| - 1], k);
    }
  }

  /** Moving one more view updates the elements folder at its new name. */
  lemma MovedIntoStep(target: map<string, string>, source: map<string, string>, names: seq<string>, i: nat)
    requires forall n :: n in names ==> n in source
    requires i < |names|
    ensures forall n :: n in names[..i] ==> n in source
    ensures MovedInto(target, source, names[..i + 1])
      == MovedInto(target, source, names[..i])[CellViews.MovedViewName(names[i]) := source[names[i]]]
  {
    assert names[..i + 1][..i] == names[..i];
    assert names[..i + 1][i] == names[i];
  }

  /** Moved views land only under names that are not subfolders. */
  lemma MovedIntoAvoids(target: map<string, string>, source: map<string, string>, names: seq<string>, directories: set<string>)
    requires forall n :: n in names ==> n in source
    requires target.Keys !! directories
    requires forall n :: n in names ==> CellViews.MovedViewName(n) !in directories
    ensures MovedInto(target, source, names).Keys !! directories
  {
  }

  /** `move_cell_views`: every entry of the cells folder moves into the
      elements folder under its new name, in listing order, and the cells
      folder is removed. A missing cells folder is skipped. The cells folder
      holds no subfolder here: `update_cell_views`, which runs first, stops
      the upgrade on one. */
  method MoveCellViews(cells: Folder, elements: Folder, entries: seq<string>)
    requires cells != elements && cells.Valid() && elements.Valid() && cells.Listing(entries)
    requires cells.directories == {} && elements.present
    requires forall n :: n in entries ==> CellViews.MovedViewName(n) !in elements.directories
    modifies cells, elements
    ensures cells.Valid() && !cells.present && cells.files == map[] && cells.directories == {}
    ensures elements.Valid() && elements.present && elements.directories == old(elements.directories)
    ensures elements.files == MovedInto(old(elements.files), old(cells.files), entries)
  {
    if !cells.present {
      return;
    }
    var original, source := elements.files, cells.files;
    var target := original;
    var i := 0;
    while i < |entries|
      invariant 0 <= i <= |entries|
      invariant target == MovedInto(original, source, entries[..i])
      modifies {}
    {
      var view := entries[i];
      MovedIntoStep(original, source, entries, i);
      target := target[CellViews.MovedViewName(view) := source[view]];
      i := i + 1;
    }
    assert entries[..i] == entries;
    MovedIntoAvoids(original, source, entries, elements.directories);
    elements.files := target;
    // The moves empty the cells folder, which `rm_rf` then removes.
    cells.present := false;
    cells.files := map[];
  }
}
