/** The wrapper's native side, as seen from C#: the calls it makes into the
    Tesseract library (recorded as a trace), the answers the engine gives back
    to one recognition, and the unmanaged heap behind `Marshal.AllocHGlobal`. */
module Native {
  import opened Structures
  import opened Results

  /** One call into the Tesseract library, with its arguments and, where the
      wrapper uses it, its result. */
  datatype NativeCall =
    | Create(result: int)
    | Init3(handle: int, dataPath: string, language: string, result: int)
    | End(handle: int)
    | Delete(handle: int)
    | SetImage(handle: int, imageData: seq<byte>, width: int, height: int, bytesPerPixel: int, bytesPerLine: int)
    | Recognize(handle: int, result: int)
    | AllWordConfidences(handle: int)
    | GetWords(handle: int)
    | GetUTF8Text(handle: int, result: int)
    | Clear(handle: int)
    | DeleteText(text: int)

  /** A call may be made while `open` is the live engine handle (0: none):
      `TessBaseAPICreate` only when no handle is live, `TessDeleteText` at any
      time, and every other call only on the live handle. */
  predicate Admissible(call: NativeCall, open: int) {
    match call
    case Create(_) => open == 0
    case DeleteText(_) => true
    case _ => call.handle == open && open != 0
  }

  /** The live handle after `call`: a created handle becomes live, deleting
      the live handle leaves none. */
  function Next(open: int, call: NativeCall): int {
    match call
    case Create(h) => h
    case Delete(h) => if h == open then 0 else open
    case _ => open
  }

  /** The live handle after a trace of calls, starting from none. */
  function OpenHandle(calls: seq<NativeCall>): int
    decreases |calls|
  {
    if calls == [] then 0 else Next(OpenHandle(calls[..|calls| - 1]), calls[|calls| - 1])
  }

  /** Every call of the trace was admissible when it was made. */
  predicate Disciplined(calls: seq<NativeCall>)
    decreases |calls|
  {
    calls == [] ||
    (Disciplined(calls[..|calls| - 1]) && Admissible(calls[|calls| - 1], OpenHandle(calls[..|calls| - 1])))
  }

  /** Appending an admissible call keeps the trace disciplined. */
  lemma Extend(calls: seq<NativeCall>, call: NativeCall)
    requires Disciplined(calls) && Admissible(call, OpenHandle(calls))
    ensures Disciplined(calls + [call])
    ensures OpenHandle(calls + [call]) == Next(OpenHandle(calls), call)
  {
    assert (calls + [call])[..|calls|] == calls;
  }

  /** Each call of a disciplined trace was admissible for the handle live at
      that point. */
  lemma {:induction false} AdmissibleAt(calls: seq<NativeCall>, m: nat)
    requires Disciplined(calls) && m < |calls|
    ensures Disciplined(calls[..m])
    ensures Admissible(calls[m], OpenHandle(calls[..m]))
    decreases |calls|
  {
    var last := |calls| - 1;
    if m < last {
      AdmissibleAt(calls[..last], m);
      assert calls[..last][..m] == calls[..m];
    }
  }

  /** A handle that is live at `hi` but was not at `lo` was created in
      between, by a `TessBaseAPICreate` that returned it. */
  lemma {:induction false} OpenedBy(calls: seq<NativeCall>, lo: nat, hi: nat)
    requires lo <= hi <= |calls|
    requires OpenHandle(calls[..lo]) == 0 && OpenHandle(calls[..hi]) != 0
    ensures exists m :: lo <= m < hi && calls[m] == Create(OpenHandle(calls[..hi]))
    decreases hi - lo
  {
    var h := OpenHandle(calls[..hi]);
    var c := calls[hi - 1];
    assert calls[..hi][..hi - 1] == calls[..hi - 1];
    assert h == Next(OpenHandle(calls[..hi - 1]), c);
    if c != Create(h) {
      OpenedBy(calls, lo, hi - 1);
    }
  }

  /** No engine handle is deleted twice: between two `TessBaseAPIDelete` calls
      of a disciplined trace, the handle the second one deletes is a live one
      that a `TessBaseAPICreate` returned after the first. */
  lemma NoDoubleDelete(calls: seq<NativeCall>, i: nat, j: nat)
    requires Disciplined(calls) && i < j < |calls|
    requires calls[i].Delete? && calls[j].Delete?
    ensures calls[i].handle != 0 && calls[j].handle != 0
    ensures exists m :: i < m < j && calls[m] == Create(calls[j].handle)
  {
    AdmissibleAt(calls, i);
    AdmissibleAt(calls, j);
    assert calls[..i + 1][..i] == calls[..i];
    OpenedBy(calls, i + 1, j);
  }

  // ---------------------------------------------------------------------------
  // What the engine hands back to one recognition

  /** The engine's answers to one `Recognize`, read out of native memory: the
      status of `TessBaseAPIRecognize`, the int32 words from the confidence
      pointer on, the BOXA header, the pointer-sized words from `boxa.box` on,
      the box records by address, and the text pointer with the text it
      points to. */
  datatype EngineResult = EngineResult(
    recognizeStatus: int32,
    confidenceWords: seq<int32>,
    boxa: Boxa,
    boxPointers: seq<int>,
    boxRecords: map<int, Box>,
    textPointer: int,
    text: string)

  /** The engine keeps its side of the interface: the confidence array ends
      with the sentinel, and the BOXA holds `n` pointers to box records. */
  predicate WellFormed(e: EngineResult) {
    Sentinel in e.confidenceWords &&
    e.boxa.n <= |e.boxPointers| &&
    forall k :: 0 <= k < e.boxa.n ==> e.boxPointers[k] in e.boxRecords
  }

  /** The record `Marshal.PtrToStructure<Box>` reads for word `k`. */
  function BoxAt(e: EngineResult, k: int): Box
    requires WellFormed(e) && 0 <= k < e.boxa.n
  {
    e.boxRecords[e.boxPointers[k]]
  }

  // ---------------------------------------------------------------------------
  // Unmanaged memory

  /** The process's unmanaged heap: the live blocks by address. */
  class UnmanagedMemory {
    var blocks: map<int, seq<byte>>

    constructor ()
      ensures blocks == map[]
    {
      blocks := map[];
    }

    /** `Marshal.AllocHGlobal(cb)`; `address` is the allocator's choice. */
    method AllocHGlobal(cb: nat, address: int) returns (ptr: int)
      requires address != 0 && address !in blocks
      modifies this
      ensures ptr == address
      ensures blocks == old(blocks)[ptr := seq(cb, _ => 0)]
    {
      ptr := address;
      blocks := blocks[ptr := seq(cb, _ => 0)];
    }

    /** `Marshal.Copy(source, startIndex, destination, length)`. */
    method Copy(source: array<byte>, startIndex: nat, destination: int, length: nat)
      requires destination in blocks
      requires startIndex + length <= source.Length && length <= |blocks[destination]|
      modifies this
      ensures blocks == old(blocks)[destination := source[startIndex..startIndex + length] + old(blocks)[destination][length..]]
    {
      blocks := blocks[destination := source[startIndex..startIndex + length] + blocks[destination][length..]];
    }

    /** `Marshal.FreeHGlobal(hglobal)`. */
    method FreeHGlobal(hglobal: int)
      requires hglobal in blocks
      modifies this
      ensures blocks == old(blocks) - {hglobal}
    {
      blocks := blocks - {hglobal};
    }
  }
}
