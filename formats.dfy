/**
 * The tree-writer registry of formats.go: writers register under a unique name, can be
 * listed in name order, and DumpTree picks one by the output file's extension.
 */
module Formats {

  import opened Types
  import opened Text

  /**
   * A writer descriptor (formats.go:12-16): its name and file extension. The Write
   * function itself produces output and is not modelled.
   */
  datatype WriterDesc = WriterDesc(name: string, ext: string)

  /** Where DumpTree sends the tree (formats.go:58-69). */
  datatype Target = Stdout | File(path: string)

  /** The writer chosen and where its output goes. */
  datatype Dump = Dump(writer: WriterDesc, target: Target)

  /** The error of formats.go:55-57. */
  datatype DumpError = UnknownExtension(ext: string)

  /** Names in strictly increasing byte order: each name, and so each descriptor, at most once. */
  predicate ByName(ws: seq<WriterDesc>)
  {
    forall i, j :: 0 <= i < j < |ws| ==> Less(ws[i].name, ws[j].name)
  }

  /** `"." + ext` is the extension of the file name (the test of formats.go:50). */
  predicate Handles(w: WriterDesc, ext: string)
  {
    ext == "." + w.ext
  }

  // ---------------------------------------------------------------------------------
  // path/filepath.Ext

  /**
   * filepath.Ext: the suffix from the last `.` of the last path element on, or empty when
   * that element has no dot.
   */
  function PathExt(path: string): (r: string)
    ensures HasSuffix(path, r)
    ensures r != [] ==> r[0] == '.' && '/' !in r && '.' !in r[1..]
    ensures r == [] ==> forall j :: 0 <= j < |path| && '/' !in path[j..] ==> path[j] != '.'
  {
    ExtBefore(path, |path|)
  }

  /** The backward scan of filepath.Ext, at position `i` with no `/` or `.` after it. */
  function ExtBefore(path: string, i: nat): (r: string)
    requires i <= |path| && '/' !in path[i..] && '.' !in path[i..]
    ensures HasSuffix(path, r)
    ensures r != [] ==> r[0] == '.' && '/' !in r && '.' !in r[1..]
    ensures r == [] ==> forall j :: i <= j < |path| || (0 <= j < i && '/' !in path[j..]) ==> path[j] != '.'
    decreases i
  {
    if i == 0 then []
    else if path[i - 1] == '/' then []
    else if path[i - 1] == '.' then path[i - 1..]
    else
      assert path[i - 1..] == [path[i - 1]] + path[i..];
      ExtBefore(path, i - 1)
  }

  // ---------------------------------------------------------------------------------
  // Sorting by name (the sort.Slice call of formats.go:25-27)

  /** `w` placed before the first descriptor whose name is not below its own. */
  function InsertByName(ws: seq<WriterDesc>, w: WriterDesc): (r: seq<WriterDesc>)
    ensures multiset(r) == multiset(ws) + multiset{w}
    ensures r[0] == w || (ws != [] && r[0] == ws[0])
  {
    if ws == [] then [w]
    else if Less(w.name, ws[0].name) then [w] + ws
    else
      assert ws == [ws[0]] + ws[1..];
      [ws[0]] + InsertByName(ws[1..], w)
  }

  /** A descriptor whose name is below the first of a list in name order can head it. */
  lemma ConsByName(x: WriterDesc, ys: seq<WriterDesc>)
    requires ByName(ys) && (ys != [] ==> Less(x.name, ys[0].name))
    ensures ByName([x] + ys)
  {
    forall j | 0 < j < |ys|
      ensures Less(x.name, ys[j].name)
    {
      LessTransitive(x.name, ys[0].name, ys[j].name);
    }
  }

  /** Inserting a descriptor with a new name into a list in name order keeps it in name order. */
  lemma {:induction false} InsertByNameSorted(ws: seq<WriterDesc>, w: WriterDesc)
    requires ByName(ws) && forall i :: 0 <= i < |ws| ==> ws[i].name != w.name
    ensures ByName(InsertByName(ws, w))
  {
    if ws == [] {
    } else if Less(w.name, ws[0].name) {
      ConsByName(w, ws);
    } else {
      LessTotal(w.name, ws[0].name);
      var rest := InsertByName(ws[1..], w);
      InsertByNameSorted(ws[1..], w);
      if |ws| > 1 && rest[0] == ws[1] {
        assert Less(ws[0].name, ws[1].name);
      }
      ConsByName(ws[0], rest);
    }
  }

  /** sort.Slice by Name over descriptors with distinct names: the same descriptors in name order. */
  method SortByName(ws: seq<WriterDesc>) returns (r: seq<WriterDesc>)
    requires forall i, j :: 0 <= i < j < |ws| ==> ws[i].name != ws[j].name
    ensures ByName(r)
    ensures multiset(r) == multiset(ws)
  {
    r := [];
    var i := 0;
    while i < |ws|
      invariant 0 <= i <= |ws|
      invariant ByName(r) && multiset(r) == multiset(ws[..i])
    {
      forall k | 0 <= k < |r|
        ensures r[k].name != ws[i].name
      {
        assert r[k] in multiset(ws[..i]);
      }
      InsertByNameSorted(r, ws[i]);
      r := InsertByName(r, ws[i]);
      assert ws[..i + 1] == ws[..i] + [ws[i]];
      i := i + 1;
    }
    assert ws[..|ws|] == ws;
  }

  // ---------------------------------------------------------------------------------
  // The registry (formats.go:18-44)

  /** The package-level `treeWriters` map. */
  class Registry {

    var writers: map<string, WriterDesc>

    /** Each descriptor is stored under its own name. */
    predicate Valid()
      reads this
    {
      forall k :: k in writers ==> writers[k].name == k
    }

    /** formats.go:18: the map starts empty. */
    constructor ()
      ensures Valid() && writers == map[]
    {
      writers := map[];
    }

    /**
     * RegisterTreeWriter (formats.go:39-44): a name already registered is a panic, so a
     * caller must register each name once; the descriptor is stored under its name.
     */
    method Register(d: WriterDesc)
      requires Valid() && d.name !in writers
      modifies this
      ensures Valid() && writers == old(writers)[d.name := d]
    {
      writers := writers[d.name := d];
    }

    /** TreeWriter (formats.go:31-37): the descriptor registered under `name`, or nothing. */
    function Lookup(name: string): (r: Option<WriterDesc>)
      reads this
      ensures r.Some? <==> name in writers
      ensures r.Some? ==> r.value == writers[name]
    {
      if name in writers then Some(writers[name]) else None
    }

    /**
     * TreeWriters (formats.go:20-29): every registered descriptor exactly once, in
     * increasing name order. The map is read in an arbitrary order.
     */
    method All() returns (r: seq<WriterDesc>)
      requires Valid()
      ensures ByName(r)
      ensures forall i :: 0 <= i < |r| ==> r[i].name in writers && writers[r[i].name] == r[i]
      ensures forall k :: k in writers ==> writers[k] in r
    {
      var out: seq<WriterDesc> := [];
      var left := writers.Keys;
      while left != {}
        invariant left <= writers.Keys
        invariant forall i :: 0 <= i < |out| ==> out[i].name in writers.Keys - left && writers[out[i].name] == out[i]
        invariant forall i, j :: 0 <= i < j < |out| ==> out[i].name != out[j].name
        invariant forall k :: k in writers.Keys - left ==> writers[k] in out
        decreases left
      {
        var k :| k in left;
        out := out + [writers[k]];
        left := left - {k};
      }
      r := SortByName(out);
      forall i | 0 <= i < |r|
        ensures r[i].name in writers && writers[r[i].name] == r[i]
      {
        assert r[i] in multiset(out);
      }
      forall k | k in writers
        ensures writers[k] in r
      {
        assert writers[k] in multiset(out);
      }
    }

    /**
     * DumpTree (formats.go:46-71): the first writer in name order whose `"." + Ext` is the
     * name's extension, or the unknown-extension error; the output goes to the standard
     * output for `""` and `"-"`, else to the file named, with `"." + Ext` appended when
     * missing. Creating the file and writing the tree are not modelled.
     */
    method DumpTree(name: string) returns (r: Result<Dump, DumpError>)
      requires Valid()
      ensures r.Err? <==> forall k :: k in writers ==> !Handles(writers[k], PathExt(name))
      ensures r.Err? ==> r.error == UnknownExtension(PathExt(name))
      ensures r.Ok? ==> r.value.writer.name in writers && writers[r.value.writer.name] == r.value.writer
      ensures r.Ok? ==> Handles(r.value.writer, PathExt(name))
      ensures r.Ok? ==> forall k :: k in writers && Handles(writers[k], PathExt(name)) ==> !Less(k, r.value.writer.name)
      ensures r.Ok? ==> r.value.target == OutputTarget(name, r.value.writer)
    {
      var ext := PathExt(name);
      var ws := All();
      var i := 0;
      while i < |ws|
        invariant 0 <= i <= |ws|
        invariant forall j :: 0 <= j < i ==> !Handles(ws[j], ext)
      {
        if Handles(ws[i], ext) {
          forall k | k in writers && Handles(writers[k], ext)
            ensures !Less(k, ws[i].name)
          {
            var j :| 0 <= j < |ws| && ws[j] == writers[k];
            if j < i {
            } else if j > i {
              LessAsymmetric(ws[i].name, ws[j].name);
            } else {
              LessIrreflexive(k);
            }
          }
          return Ok(Dump(ws[i], OutputTarget(name, ws[i])));
        }
        i := i + 1;
      }
      forall k | k in writers
        ensures !Handles(writers[k], ext)
      {
        var j :| 0 <= j < |ws| && ws[j] == writers[k];
      }
      return Err(UnknownExtension(ext));
    }
  }

  /** formats.go:58-62: standard output for `""` and `"-"`, else the name with `"." + Ext` ensured at its end. */
  function OutputTarget(name: string, w: WriterDesc): (r: Target)
    ensures name != "" && name != "-" ==> r.File? && HasPrefix(r.path, name)
    ensures r.File? && w.ext != "" ==> HasSuffix(r.path, "." + w.ext)
  {
    if name == "" || name == "-" then Stdout
    else if w.ext != "" && !HasSuffix(name, "." + w.ext) then File(name + "." + w.ext)
    else File(name)
  }

  /**
   * A writer is only chosen for a name whose extension it handles, so neither the
   * standard-output case nor the appended extension of formats.go:58-62 can occur:
   * DumpTree always writes to the file named.
   */
  lemma ChosenWriterKeepsName(name: string, w: WriterDesc)
    requires Handles(w, PathExt(name))
    ensures OutputTarget(name, w) == File(name)
  {
    var e := PathExt(name);
    assert HasSuffix(name, e);
    assert |e| >= 1;
  }
}
