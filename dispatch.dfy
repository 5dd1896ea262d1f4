/**
 * `process_directory`: the walk over the source tree, taken as the sequence
 * of items the directory walker yields, and the executor calls the loop
 * makes, recorded as a trace. A file is resized when its extension is valid
 * UTF-8 and is exactly `png`, `jpg` or `jpeg`.
 */
module Dispatch {
  import opened ResizeOptions

  /** What `Path::extension` followed by `to_str` gives for an entry. */
  datatype Extension = NoExtension | NotUtf8 | Utf8(text: string)

  datatype Entry = Entry(path: string, isFile: bool, extension: Extension)

  /** One item of the walk: an entry, or an error that `unwrap` turns into a panic. */
  datatype WalkItem = Visit(entry: Entry) | WalkError

  /** One call of the executor: the file, and the size and filter it is given. */
  datatype Call = Call(path: string, size: SizeSpec, filter: FilterKind)

  /** The calls made, in order, and whether the walk ran to its end. */
  datatype Trace = Trace(calls: seq<Call>, completed: bool)

  predicate IsImageExtension(ext: string) {
    ext == "png" || ext == "jpg" || ext == "jpeg"
  }

  predicate IsImage(e: Entry) {
    e.isFile && e.extension.Utf8? && IsImageExtension(e.extension.text)
  }

  predicate Selects(item: WalkItem) {
    item.Visit? && IsImage(item.entry)
  }

  /**
   * The trace of the loop over `walk`: one call per image file, in walk
   * order, until the first walk error, where the run stops. Every call
   * carries the same size and filter.
   */
  function Dispatched(walk: seq<WalkItem>, size: SizeSpec, filter: FilterKind): (t: Trace)
    ensures forall i :: 0 <= i < |t.calls| ==> t.calls[i].size == size && t.calls[i].filter == filter
    ensures |t.calls| <= |walk|
    decreases |walk|
  {
    if walk == [] then Trace([], true)
    else
      var t := Dispatched(walk[..|walk| - 1], size, filter);
      if !t.completed then t
      else
        match walk[|walk| - 1]
        case WalkError => Trace(t.calls, false)
        case Visit(e) =>
          if IsImage(e) then Trace(t.calls + [Call(e.path, size, filter)], true) else t
  }

  /** The loop of `process_directory`, returning the executor calls it makes. */
  method ProcessDirectory(walk: seq<WalkItem>, size: SizeSpec, filter: FilterKind)
    returns (calls: seq<Call>, completed: bool)
    ensures Trace(calls, completed) == Dispatched(walk, size, filter)
  {
    calls := [];
    var i := 0;
    while i < |walk|
      invariant 0 <= i <= |walk|
      invariant Dispatched(walk[..i], size, filter) == Trace(calls, true)
    {
      assert walk[..i + 1][..i] == walk[..i];
      match walk[i]
      case WalkError =>
        DispatchedStops(walk, i + 1, size, filter);
        assert walk[..|walk|] == walk;
        completed := false;
        return;
      case Visit(entry) =>
        if entry.isFile {
          match entry.extension
          case Utf8(ext) =>
            if ext == "png" || ext == "jpg" || ext == "jpeg" {
              calls := calls + [Call(entry.path, size, filter)];
            }
          case NoExtension =>
          case NotUtf8 =>
        }
      i := i + 1;
    }
    assert walk[..i] == walk;
    completed := true;
  }

  /** Once the walk has stopped, later items change nothing. */
  lemma {:induction false} DispatchedStops(walk: seq<WalkItem>, k: nat, size: SizeSpec, filter: FilterKind)
    requires k <= |walk|
    requires !Dispatched(walk[..k], size, filter).completed
    ensures Dispatched(walk, size, filter) == Dispatched(walk[..k], size, filter)
    decreases |walk| - k
  {
    if k < |walk| {
      assert walk[..k + 1][..k] == walk[..k];
      DispatchedStops(walk, k + 1, size, filter);
    } else {
      assert walk[..k] == walk;
    }
  }

  /** The walk runs to its end exactly when it yields no error. */
  lemma {:induction false} DispatchedCompletes(walk: seq<WalkItem>, size: SizeSpec, filter: FilterKind)
    ensures Dispatched(walk, size, filter).completed <==> WalkError !in walk
    decreases |walk|
  {
    if walk != [] {
      var init := walk[..|walk| - 1];
      DispatchedCompletes(init, size, filter);
      assert walk == init + [walk[|walk| - 1]];
    }
  }

  /**
   * At the first walk error the run stops with the calls made before it:
   * nothing after the error is called.
   */
  lemma DispatchedAbortsAt(walk: seq<WalkItem>, k: nat, size: SizeSpec, filter: FilterKind)
    requires k < |walk| && walk[k] == WalkError
    requires WalkError !in walk[..k]
    ensures Dispatched(walk, size, filter) == Trace(Dispatched(walk[..k], size, filter).calls, false)
  {
    DispatchedCompletes(walk[..k], size, filter);
    assert walk[..k + 1][..k] == walk[..k];
    DispatchedStops(walk, k + 1, size, filter);
  }

  /** The positions of the image files in the walk, in increasing order. */
  function ImageIndices(walk: seq<WalkItem>): (idx: seq<nat>)
    ensures forall j :: 0 <= j < |idx| ==> idx[j] < |walk| && Selects(walk[idx[j]])
    ensures forall j, k :: 0 <= j < k < |idx| ==> idx[j] < idx[k]
    ensures forall i :: 0 <= i < |walk| && Selects(walk[i]) ==> i in idx
    decreases |walk|
  {
    if walk == [] then []
    else
      var init := walk[..|walk| - 1];
      var rest := ImageIndices(init);
      assert forall j :: 0 <= j < |rest| ==> walk[rest[j]] == init[rest[j]];
      if Selects(walk[|walk| - 1]) then rest + [|walk| - 1] else rest
  }

  /**
   * On a walk without errors the executor is called exactly once for each
   * image file, in walk order, with that file's path and the common size
   * and filter, and for nothing else.
   */
  lemma {:induction false} DispatchedSelects(walk: seq<WalkItem>, size: SizeSpec, filter: FilterKind)
    requires WalkError !in walk
    ensures var t := Dispatched(walk, size, filter);
      var idx := ImageIndices(walk);
      |t.calls| == |idx| &&
      forall j :: 0 <= j < |idx| ==> t.calls[j] == Call(walk[idx[j]].entry.path, size, filter)
    decreases |walk|
  {
    if walk != [] {
      var init := walk[..|walk| - 1];
      var last := walk[|walk| - 1];
      assert walk == init + [last];
      assert WalkError !in init;
      DispatchedSelects(init, size, filter);
      DispatchedCompletes(init, size, filter);
      var t0 := Dispatched(init, size, filter);
      var idx0 := ImageIndices(init);
      assert t0.completed && last.Visit?;
      assert forall j :: 0 <= j < |idx0| ==> walk[idx0[j]] == init[idx0[j]];
      if Selects(last) {
        assert Dispatched(walk, size, filter).calls == t0.calls + [Call(last.entry.path, size, filter)];
        assert ImageIndices(walk) == idx0 + [|walk| - 1];
      } else {
        assert Dispatched(walk, size, filter) == t0;
        assert ImageIndices(walk) == idx0;
      }
    }
  }

  /** The files a walk of `a.png`, `b.txt` and `c.jpg` resizes. */
  lemma DispatchedExample(size: SizeSpec, filter: FilterKind)
    ensures Dispatched([Visit(Entry("a.png", true, Utf8("png"))),
                        Visit(Entry("b.txt", true, Utf8("txt"))),
                        Visit(Entry("c.jpg", true, Utf8("jpg")))], size, filter)
         == Trace([Call("a.png", size, filter), Call("c.jpg", size, filter)], true)
  {
    var a := Visit(Entry("a.png", true, Utf8("png")));
    var b := Visit(Entry("b.txt", true, Utf8("txt")));
    var c := Visit(Entry("c.jpg", true, Utf8("jpg")));
    assert IsImage(a.entry) && !IsImage(b.entry) && IsImage(c.entry);
    assert [a][..0] == [];
    assert Dispatched([a], size, filter) == Trace([Call("a.png", size, filter)], true);
    assert [a, b][..1] == [a];
    assert Dispatched([a, b], size, filter) == Trace([Call("a.png", size, filter)], true);
    assert [a, b, c][..2] == [a, b];
  }
}
