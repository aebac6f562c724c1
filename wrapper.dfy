/** `TesseractWrapper`: the engine handle it owns, its initialisation and
    shutdown, and one recognition of a texture, from packing the pixels for
    the engine to highlighting and filtering the recognised words. */
module Wrapper {
  import opened Structures
  import opened Text
  import opened Results
  import opened Pixels
  import opened Outline
  import opened Native
  import opened Textures

  /** `Color.magenta` as a texture stores it. */
  const Magenta: Color32 := Color32(255, 0, 255, 255)

  /** The two calls `Close` makes on a live handle, none on handle 0. */
  function CloseCalls(handle: int): (calls: seq<NativeCall>)
    ensures handle == 0 <==> calls == []
  {
    if handle == 0 then [] else [End(handle), Delete(handle)]
  }

  // ---------------------------------------------------------------------------
  // What a recognition paints

  /** Pixel `p` lies on the highlight of one of the first `upto` words whose
      confidence reaches the minimum. */
  ghost predicate Highlighted(e: EngineResult, confidence: seq<int>, upto: int, textureHeight: int32, p: (int, int))
    requires WellFormed(e) && upto <= e.boxa.n && upto <= |confidence|
  {
    exists k :: 0 <= k < upto && Confident(confidence[k]) &&
                OnOutline(HighlightRect(BoxAt(e, k), textureHeight), DefaultThickness, p.0, p.1)
  }

  /** One more word extends the highlighted pixels by its outline when it is
      confident, and by nothing otherwise. */
  lemma HighlightedStep(e: EngineResult, confidence: seq<int>, upto: nat, textureHeight: int32, p: (int, int))
    requires WellFormed(e) && upto < e.boxa.n && upto < |confidence|
    ensures Highlighted(e, confidence, upto + 1, textureHeight, p) <==>
              Highlighted(e, confidence, upto, textureHeight, p) ||
              (Confident(confidence[upto]) &&
               OnOutline(HighlightRect(BoxAt(e, upto), textureHeight), DefaultThickness, p.0, p.1))
  {
    if Highlighted(e, confidence, upto + 1, textureHeight, p) {
      var k :| 0 <= k < upto + 1 && Confident(confidence[k]) &&
               OnOutline(HighlightRect(BoxAt(e, k), textureHeight), DefaultThickness, p.0, p.1);
      if k < upto {
        assert Highlighted(e, confidence, upto, textureHeight, p);
      }
    }
  }

  /** `after` is `before` with the highlights of the first `upto` words painted
      magenta over it, and nothing else changed. */
  ghost predicate Painted(before: Canvas, after: Canvas,
                          e: EngineResult, confidence: seq<int>, upto: int, textureHeight: int32)
    requires WellFormed(e) && upto <= e.boxa.n && upto <= |confidence|
  {
    (forall p :: p in after <==> p in before || Highlighted(e, confidence, upto, textureHeight, p)) &&
    (forall p :: p in after ==>
                   after[p] == if Highlighted(e, confidence, upto, textureHeight, p) then Magenta else before[p])
  }

  /** Drawing a confident word's outline over the highlights of the words
      before it gives the highlights of one word more; skipping a word that
      is not confident does too. */
  lemma PaintedStep(before: Canvas, current: Canvas, next: Canvas,
                    e: EngineResult, confidence: seq<int>, upto: nat, textureHeight: int32)
    requires WellFormed(e) && upto < e.boxa.n && upto < |confidence|
    requires Painted(before, current, e, confidence, upto, textureHeight)
    requires Confident(confidence[upto]) ==>
               Outlined(current, next, HighlightRect(BoxAt(e, upto), textureHeight), DefaultThickness, Magenta)
    requires !Confident(confidence[upto]) ==> next == current
    ensures Painted(before, next, e, confidence, upto + 1, textureHeight)
  {
    forall p {
      HighlightedStep(e, confidence, upto, textureHeight, p);
    }
  }

  /** How far the box loop gets: all `n` boxes, or as far as there are
      confidences. */
  function Reached(confidences: nat, n: nat): (reached: nat)
    ensures reached <= confidences && reached <= n
    ensures reached == n || reached == confidences
  {
    if confidences < n then confidences else n
  }

  /** The pixels after the box loop has handled the first `upto` words: the
      outline of each confident word's box drawn magenta, in word order. */
  function Highlights(m: Canvas, e: EngineResult, confidence: seq<int>, upto: nat, textureHeight: int32): Canvas
    requires WellFormed(e) && upto <= e.boxa.n && upto <= |confidence|
  {
    if upto == 0 then m
    else
      var prior := Highlights(m, e, confidence, upto - 1, textureHeight);
      if Confident(confidence[upto - 1])
      then DrawnLines(prior, HighlightRect(BoxAt(e, upto - 1), textureHeight), Magenta, DefaultThickness)
      else prior
  }

  /** The `boxes` array after the box loop has handled the first `upto`
      words: each confident word's record stored at its index. */
  function StoredBoxes(boxes: seq<Box>, e: EngineResult, confidence: seq<int>, upto: nat): (stored: seq<Box>)
    requires WellFormed(e) && upto <= e.boxa.n && upto <= |confidence| && upto <= |boxes|
    ensures |stored| == |boxes|
  {
    if upto == 0 then boxes
    else
      var prior := StoredBoxes(boxes, e, confidence, upto - 1);
      if Confident(confidence[upto - 1]) then prior[upto - 1 := BoxAt(e, upto - 1)] else prior
  }

  /** After the box loop, slot `k` holds word `k`'s record exactly when the
      loop reached that word and it was confident; every other slot keeps
      what it held. */
  lemma {:induction false} StoredBoxesAt(boxes: seq<Box>, e: EngineResult, confidence: seq<int>, upto: nat, k: nat)
    requires WellFormed(e) && upto <= e.boxa.n && upto <= |confidence| && upto <= |boxes| && k < |boxes|
    ensures StoredBoxes(boxes, e, confidence, upto)[k] ==
              if k < upto && Confident(confidence[k]) then BoxAt(e, k) else boxes[k]
  {
    if upto > 0 {
      StoredBoxesAt(boxes, e, confidence, upto - 1, k);
    }
  }

  /** The box loop paints exactly the outlines of the confident words' boxes
      magenta, and leaves every other pixel as it was. */
  lemma {:induction false} HighlightsPainted(m: Canvas, e: EngineResult, confidence: seq<int>, upto: nat, textureHeight: int32)
    requires WellFormed(e) && upto <= e.boxa.n && upto <= |confidence|
    ensures Painted(m, Highlights(m, e, confidence, upto, textureHeight), e, confidence, upto, textureHeight)
  {
    if upto > 0 {
      HighlightsPainted(m, e, confidence, upto - 1, textureHeight);
      HighlightsStep(m, e, confidence, upto - 1, textureHeight);
    }
  }

  lemma HighlightsStep(m: Canvas, e: EngineResult, confidence: seq<int>, upto: nat, textureHeight: int32)
    requires WellFormed(e) && upto < e.boxa.n && upto < |confidence|
    requires Painted(m, Highlights(m, e, confidence, upto, textureHeight), e, confidence, upto, textureHeight)
    ensures Painted(m, Highlights(m, e, confidence, upto + 1, textureHeight), e, confidence, upto + 1, textureHeight)
  {
    var prior := Highlights(m, e, confidence, upto, textureHeight);
    if Confident(confidence[upto]) {
      DrawnLinesOutlined(prior, HighlightRect(BoxAt(e, upto), textureHeight), Magenta, DefaultThickness);
    }
    PaintedStep(m, prior, Highlights(m, e, confidence, upto + 1, textureHeight), e, confidence, upto, textureHeight);
  }

  // ---------------------------------------------------------------------------
  // One recognition, as a function of the engine's answers

  /** The confidence list the wrapper builds. */
  function Confidences(e: EngineResult): seq<int> {
    BeforeSentinel(e.confidenceWords)
  }

  /** The box loop runs to its end: recognition succeeded, the BOXA size is
      not negative and there is a confidence for every box. */
  predicate BoxesRead(e: EngineResult) {
    e.recognizeStatus == 0 && 0 <= e.boxa.n <= |Confidences(e)|
  }

  /** The image buffer is never freed: an exception leaves `Recognize`
      between `TessBaseAPIRecognize` and `Marshal.FreeHGlobal`. */
  predicate LeaksImage(e: EngineResult) {
    e.recognizeStatus == 0 && !BoxesRead(e)
  }

  /** The calls that fetch and release the recognised text. */
  function TextCalls(h: int, e: EngineResult): (calls: seq<NativeCall>)
    ensures |calls| >= 1 && calls[0] == GetUTF8Text(h, e.textPointer)
    ensures |calls| == 1 <==> e.textPointer == 0
  {
    [GetUTF8Text(h, e.textPointer)] + (if e.textPointer == 0 then [] else [Clear(h), DeleteText(e.textPointer)])
  }

  /** The calls a recognition makes after a successful `TessBaseAPIRecognize`:
      the confidences, the word boxes and, once the boxes are read, the text. */
  function WordCalls(h: int, e: EngineResult): (calls: seq<NativeCall>)
    ensures |calls| >= 2 && calls[0] == AllWordConfidences(h) && calls[1] == GetWords(h)
    ensures |calls| == 2 <==> !BoxesRead(e)
  {
    [AllWordConfidences(h), GetWords(h)] + (if BoxesRead(e) then TextCalls(h, e) else [])
  }

  /** The calls a recognition makes on live handle `h` once the image is set. */
  function AnalyseCalls(h: int, e: EngineResult): (calls: seq<NativeCall>)
    ensures |calls| >= 1 && calls[0] == Recognize(h, e.recognizeStatus)
    ensures |calls| == 1 <==> e.recognizeStatus != 0
  {
    [Recognize(h, e.recognizeStatus)] + (if e.recognizeStatus != 0 then [] else WordCalls(h, e))
  }

  /** The calls one recognition makes on live handle `h`, given the image
      bytes handed to `TessBaseAPISetImage`. */
  function RecognizeCalls(h: int, image: seq<byte>, width: int, height: int, e: EngineResult): (calls: seq<NativeCall>)
    ensures |calls| >= 2 && calls[0] == SetImage(h, image, width, height, 4, width * 4)
    ensures calls[1] == Recognize(h, e.recognizeStatus)
  {
    [SetImage(h, image, width, height, 4, width * 4)] + AnalyseCalls(h, e)
  }

  /** What `Recognize` returns or throws on a live handle. */
  function RecognizeOutcome(e: EngineResult): Outcome<Option<string>>
    requires WellFormed(e)
  {
    if e.recognizeStatus != 0 then Returned(None)
    else if e.boxa.n < 0 then Threw(OverflowException)
    else if |Confidences(e)| < e.boxa.n then Threw(ArgumentOutOfRangeException)
    else if e.textPointer == 0 then Returned(None)
    else
      var words := SplitWords(e.text);
      if |words| < e.boxa.n then Threw(IndexOutOfRangeException)
      else Returned(Some(Filtered(words, Confidences(e), e.boxa.n)))
  }

  /** The image buffer leaks exactly when `Recognize` throws before the text is
      fetched: on a negative BOXA size or too few confidences, and not on the
      missing word of the final loop. */
  lemma LeaksExactlyOnEarlyThrow(e: EngineResult)
    requires WellFormed(e)
    ensures LeaksImage(e) <==> RecognizeOutcome(e).Threw? && RecognizeOutcome(e).exception != IndexOutOfRangeException
  {
  }

  /** A recognition that returns text returns the confident words of the
      recognised text, in order, each followed by a blank; the text is empty
      exactly when no word reaches the minimum confidence. */
  lemma RecognizedTextIsConfidentWords(e: EngineResult, text: string)
    requires WellFormed(e) && RecognizeOutcome(e) == Returned(Some(text))
    ensures BoxesRead(e) && e.boxa.n <= |SplitWords(e.text)|
    ensures text == Filtered(SplitWords(e.text), Confidences(e), e.boxa.n)
    ensures SplitWords(text) == KeptWords(SplitWords(e.text), Confidences(e), e.boxa.n)
    ensures text == "" <==> forall i :: 0 <= i < e.boxa.n ==> !Confident(Confidences(e)[i])
  {
    var words := SplitWords(e.text);
    SplitWordsAreTokens(e.text);
    FilteredSplitsIntoKept(words, Confidences(e), e.boxa.n);
    FilteredEmptyIff(words, Confidences(e), e.boxa.n);
  }

  class TesseractWrapper {
    /** `_tessHandle`: the engine handle, 0 when there is none. */
    var tessHandle: int
    /** `_errorMsg`, null until an initialisation fails. */
    var errorMsg: Option<string>
    /** `_highlightedTexture`: the texture of the last recognition. */
    var highlightedTexture: Texture?
    /** Every call this wrapper has made into the library, in order. */
    ghost var calls: seq<NativeCall>

    /** The handle field is the handle the calls so far have left live, and
        every call was made on the live handle. */
    ghost predicate Valid()
      reads this
    {
      tessHandle == OpenHandle(calls) && Disciplined(calls)
    }

    constructor ()
      ensures Valid()
      ensures tessHandle == 0 && errorMsg == None && highlightedTexture == null && calls == []
    {
      tessHandle := 0;
      errorMsg := None;
      highlightedTexture := null;
      calls := [];
    }

    /** Ends and deletes the live handle, if there is one, and forgets it. */
    method Close()
      requires Valid()
      modifies this`tessHandle, this`calls
      ensures Valid() && tessHandle == 0
      ensures calls == old(calls) + CloseCalls(old(tessHandle))
    {
      if tessHandle == 0 {
        return;
      }
      Extend(calls, End(tessHandle));
      calls := calls + [End(tessHandle)];
      Extend(calls, Delete(tessHandle));
      calls := calls + [Delete(tessHandle)];
      tessHandle := 0;
    }

    /** Closes any live handle, then creates and initialises a new one.
        `created` is what `TessBaseAPICreate` returns and `initStatus` what
        `TessBaseAPIInit3` returns. */
    method Init(lang: string, dataPath: Option<string>, created: int, initStatus: int32) returns (ok: bool)
      requires Valid()
      modifies this`tessHandle, this`calls, this`errorMsg
      ensures Valid()
      ensures ok <==> created != 0 && !IsNullOrWhiteSpace(dataPath) && initStatus == 0
      ensures created == 0 ==>
                tessHandle == 0 && errorMsg == Some("TessAPICreate failed") &&
                calls == old(calls) + CloseCalls(old(tessHandle)) + [Create(0)]
      ensures created != 0 && IsNullOrWhiteSpace(dataPath) ==>
                tessHandle == created && errorMsg == Some("Invalid DataPath") &&
                calls == old(calls) + CloseCalls(old(tessHandle)) + [Create(created)]
      ensures created != 0 && !IsNullOrWhiteSpace(dataPath) && initStatus != 0 ==>
                tessHandle == 0 && errorMsg == Some("TessAPIInit failed. Output: " + IntToString(initStatus)) &&
                calls == old(calls) + CloseCalls(old(tessHandle)) +
                         [Create(created), Init3(created, dataPath.value, lang, initStatus)] + CloseCalls(created)
      ensures ok ==>
                tessHandle == created && errorMsg == old(errorMsg) &&
                calls == old(calls) + CloseCalls(old(tessHandle)) +
                         [Create(created), Init3(created, dataPath.value, lang, initStatus)]
    {
      if tessHandle != 0 {
        Close();
      } else {
        assert calls == old(calls) + CloseCalls(old(tessHandle));
      }
      ghost var closed := calls;
      ok := Open(lang, dataPath, created, initStatus);
      assert closed == old(calls) + CloseCalls(old(tessHandle));
    }

    /** `Init` once no handle is live: creates the engine and initialises it. */
    method Open(lang: string, dataPath: Option<string>, created: int, initStatus: int32) returns (ok: bool)
      requires Valid() && tessHandle == 0
      modifies this`tessHandle, this`calls, this`errorMsg
      ensures Valid()
      ensures ok <==> created != 0 && !IsNullOrWhiteSpace(dataPath) && initStatus == 0
      ensures created == 0 ==>
                tessHandle == 0 && errorMsg == Some("TessAPICreate failed") && calls == old(calls) + [Create(0)]
      ensures created != 0 && IsNullOrWhiteSpace(dataPath) ==>
                tessHandle == created && errorMsg == Some("Invalid DataPath") && calls == old(calls) + [Create(created)]
      ensures created != 0 && !IsNullOrWhiteSpace(dataPath) && initStatus != 0 ==>
                tessHandle == 0 && errorMsg == Some("TessAPIInit failed. Output: " + IntToString(initStatus)) &&
                calls == old(calls) + [Create(created), Init3(created, dataPath.value, lang, initStatus)] + CloseCalls(created)
      ensures ok ==>
                tessHandle == created && errorMsg == old(errorMsg) &&
                calls == old(calls) + [Create(created), Init3(created, dataPath.value, lang, initStatus)]
    {
      ghost var start := calls;
      Extend(calls, Create(created));
      calls := calls + [Create(created)];
      tessHandle := created;
      if tessHandle == 0 {
        errorMsg := Some("TessAPICreate failed");
        return false;
      }
      if IsNullOrWhiteSpace(dataPath) {
        errorMsg := Some("Invalid DataPath");
        return false;
      }
      var init := initStatus;
      Record(Init3(tessHandle, dataPath.value, lang, init));
      assert calls == start + [Create(created), Init3(created, dataPath.value, lang, init)];
      if init != 0 {
        Close();
        errorMsg := Some("TessAPIInit failed. Output: " + IntToString(init));
        return false;
      }
      return true;
    }

    /** Notes a call that leaves the live handle as it is. */
    ghost method Record(call: NativeCall)
      requires Valid() && Admissible(call, tessHandle) && Next(tessHandle, call) == tessHandle
      modifies this`calls
      ensures Valid() && calls == old(calls) + [call]
    {
      Extend(calls, call);
      calls := calls + [call];
    }

    /** Recognises the text of `texture`. `engine` holds the library's answers
        and `imageAddress` is the block `Marshal.AllocHGlobal` hands out. On a
        live handle it records the texture, hands its pixels to the engine,
        highlights the confident words on the texture and returns their text,
        or null, or throws; the handle is unchanged either way. */
    method Recognize(texture: Texture, memory: UnmanagedMemory, engine: EngineResult, imageAddress: int)
      returns (outcome: Outcome<Option<string>>)
      requires Valid() && texture.Valid() && WellFormed(engine)
      requires imageAddress != 0 && imageAddress !in memory.blocks
      modifies this`highlightedTexture, this`calls, texture`pixels, memory
      ensures Valid() && tessHandle == old(tessHandle) && texture.Valid()
      ensures old(tessHandle) == 0 ==>
                outcome == Returned(None) && calls == old(calls) && highlightedTexture == old(highlightedTexture) &&
                texture.pixels == old(texture.pixels) && memory.blocks == old(memory.blocks)
      ensures old(tessHandle) != 0 ==> outcome == RecognizeOutcome(engine)
      ensures old(tessHandle) != 0 ==> highlightedTexture == texture
      ensures old(tessHandle) != 0 ==>
                calls == old(calls) + RecognizeCalls(tessHandle, Packed(old(texture.GetPixels32()), texture.width, texture.height),
                                                     texture.width, texture.height, engine)
      ensures old(tessHandle) != 0 && (engine.recognizeStatus != 0 || engine.boxa.n < 0) ==>
                texture.pixels == old(texture.pixels)
      ensures old(tessHandle) != 0 && engine.recognizeStatus == 0 && engine.boxa.n >= 0 ==>
                texture.pixels == Highlights(old(texture.pixels), engine, Confidences(engine),
                                             Reached(|Confidences(engine)|, engine.boxa.n), texture.height)
      ensures old(tessHandle) != 0 ==>
                memory.blocks == if LeaksImage(engine)
                                 then old(memory.blocks)[imageAddress := Packed(old(texture.GetPixels32()), texture.width, texture.height)]
                                 else old(memory.blocks)
    {
      if tessHandle == 0 {
        return Returned(None);
      }
      highlightedTexture := texture;
      ghost var image := Packed(texture.GetPixels32(), texture.width, texture.height);
      assert image == Packed(old(texture.GetPixels32()), texture.width, texture.height);
      var imagePtr := SubmitImage(texture, memory, imageAddress);
      assert memory.blocks - {imagePtr} == old(memory.blocks);
      outcome := Analyse(texture, memory, engine, imagePtr);
      assert calls == old(calls) + RecognizeCalls(tessHandle, image, texture.width, texture.height, engine) by {
        Associative(old(calls), [SetImage(tessHandle, image, texture.width, texture.height, 4, texture.width * 4)],
                    AnalyseCalls(tessHandle, engine));
      }
    }

    /** The second half of `Recognize`: runs the engine on the image at
        `imagePtr`, reads the confidences and the boxes, highlights the
        confident words and fetches their text. */
    method Analyse(texture: Texture, memory: UnmanagedMemory, engine: EngineResult, imagePtr: int)
      returns (outcome: Outcome<Option<string>>)
      requires Valid() && tessHandle != 0 && texture.Valid() && WellFormed(engine) && imagePtr in memory.blocks
      modifies this`calls, texture`pixels, memory
      ensures Valid() && texture.Valid()
      ensures outcome == RecognizeOutcome(engine)
      ensures calls == old(calls) + AnalyseCalls(tessHandle, engine)
      ensures engine.recognizeStatus != 0 || engine.boxa.n < 0 ==> texture.pixels == old(texture.pixels)
      ensures engine.recognizeStatus == 0 && engine.boxa.n >= 0 ==>
                texture.pixels == Highlights(old(texture.pixels), engine, Confidences(engine),
                                             Reached(|Confidences(engine)|, engine.boxa.n), texture.height)
      ensures memory.blocks == if LeaksImage(engine) then old(memory.blocks) else old(memory.blocks) - {imagePtr}
    {
      ghost var start := calls;
      var status := engine.recognizeStatus;
      Record(NativeCall.Recognize(tessHandle, status));
      if status != 0 {
        memory.FreeHGlobal(imagePtr);
        return Returned(None);
      }
      outcome := ReadWords(texture, memory, engine, imagePtr);
      Associative(start, [NativeCall.Recognize(tessHandle, status)], WordCalls(tessHandle, engine));
    }

    /** `Recognize` after a successful `TessBaseAPIRecognize`: reads the
        confidences and the boxes, outlines the confident words, then reads the
        text. */
    method ReadWords(texture: Texture, memory: UnmanagedMemory, engine: EngineResult, imagePtr: int)
      returns (outcome: Outcome<Option<string>>)
      requires Valid() && tessHandle != 0 && texture.Valid() && WellFormed(engine) && imagePtr in memory.blocks
      requires engine.recognizeStatus == 0
      modifies this`calls, texture`pixels, memory
      ensures Valid() && texture.Valid()
      ensures outcome == RecognizeOutcome(engine)
      ensures calls == old(calls) + WordCalls(tessHandle, engine)
      ensures engine.boxa.n < 0 ==> texture.pixels == old(texture.pixels)
      ensures engine.boxa.n >= 0 ==>
                texture.pixels == Highlights(old(texture.pixels), engine, Confidences(engine),
                                             Reached(|Confidences(engine)|, engine.boxa.n), texture.height)
      ensures memory.blocks == if LeaksImage(engine) then old(memory.blocks) else old(memory.blocks) - {imagePtr}
    {
      ghost var start := calls;
      Record(AllWordConfidences(tessHandle));
      var confidence := ReadConfidences(engine.confidenceWords);

      Record(GetWords(tessHandle));
      ghost var words := [AllWordConfidences(tessHandle), GetWords(tessHandle)];
      assert calls == start + words;
      var boxa := engine.boxa;
      if boxa.n < 0 {
        return Threw(OverflowException);
      }
      var boxes := new Box[boxa.n];
      var fault := HighlightBoxes(texture, boxes, confidence, engine);
      if fault.Some? {
        return Threw(fault.value);
      }
      outcome := ReadText(memory, engine, imagePtr, confidence, boxes.Length);
      Associative(start, words, TextCalls(tessHandle, engine));
    }

    /** The first half of `Recognize`: packs the texture's pixels, copies them
        into a fresh unmanaged block and hands that to the engine. */
    method SubmitImage(texture: Texture, memory: UnmanagedMemory, imageAddress: int) returns (imagePtr: int)
      requires Valid() && tessHandle != 0 && texture.Valid()
      requires imageAddress != 0 && imageAddress !in memory.blocks
      modifies this`calls, memory
      ensures Valid() && imagePtr == imageAddress
      ensures memory.blocks == old(memory.blocks)[imagePtr := Packed(texture.GetPixels32(), texture.width, texture.height)]
      ensures calls == old(calls) + [SetImage(tessHandle, Packed(texture.GetPixels32(), texture.width, texture.height),
                                              texture.width, texture.height, 4, texture.width * 4)]
    {
      var width: int := texture.width;
      var height: int := texture.height;
      var colors := texture.GetPixels32();
      var count: int := width * height;
      var bytesPerPixel := 4;
      var dataBytes := PackPixels(colors, width, height);
      PackedLength(colors, width, height);

      imagePtr := memory.AllocHGlobal(count * bytesPerPixel, imageAddress);
      memory.Copy(dataBytes, 0, imagePtr, count * bytesPerPixel);
      ghost var image := memory.blocks[imagePtr];
      assert image == Packed(colors, width, height) by {
        assert dataBytes[0..count * bytesPerPixel] == dataBytes[..];
      }
      Record(SetImage(tessHandle, image, width, height, bytesPerPixel, width * bytesPerPixel));
    }

    /** The last part of `Recognize`: fetches the text, frees the image block,
        and keeps the confident words among the first `count`. */
    method ReadText(memory: UnmanagedMemory, engine: EngineResult, imagePtr: int, confidence: seq<int>, count: nat)
      returns (outcome: Outcome<Option<string>>)
      requires Valid() && tessHandle != 0 && imagePtr in memory.blocks && count <= |confidence|
      modifies this`calls, memory
      ensures Valid() && memory.blocks == old(memory.blocks) - {imagePtr}
      ensures calls == old(calls) + TextCalls(tessHandle, engine)
      ensures engine.textPointer == 0 ==> outcome == Returned(None)
      ensures engine.textPointer != 0 && count <= |SplitWords(engine.text)| ==>
                outcome == Returned(Some(Filtered(SplitWords(engine.text), confidence, count)))
      ensures engine.textPointer != 0 && |SplitWords(engine.text)| < count ==>
                outcome == Threw(IndexOutOfRangeException)
    {
      var strPtr := engine.textPointer;
      Record(GetUTF8Text(tessHandle, strPtr));
      memory.FreeHGlobal(imagePtr);
      if strPtr == 0 {
        return Returned(None);
      }
      var recognizedText := engine.text;
      ghost var fetched := calls;
      Record(Clear(tessHandle));
      Record(DeleteText(strPtr));
      assert calls == old(calls) + TextCalls(tessHandle, engine) by {
        assert fetched == old(calls) + [GetUTF8Text(tessHandle, strPtr)];
        Associative(old(calls), [GetUTF8Text(tessHandle, strPtr)], [Clear(tessHandle), DeleteText(strPtr)]);
      }

      var words := SplitWords(recognizedText);
      var filtered := FilterWords(words, confidence, count);
      match filtered
      case Returned(text) =>
        outcome := Returned(Some(text));
      case Threw(exception) =>
        outcome := Threw(exception);
    }

    /** Packs the texture's pixels into the byte stream for the engine: last
        row first, each row left to right, R, G, B and A for each pixel. */
    static method PackPixels(colors: seq<Color32>, width: nat, height: nat) returns (dataBytes: array<byte>)
      requires |colors| == width * height
      ensures fresh(dataBytes)
      ensures dataBytes[..] == Packed(colors, width, height)
    {
      var count := width * height;
      var bytesPerPixel := 4;
      dataBytes := new byte[count * bytesPerPixel];
      var bytePtr := 0;
      assert |RowsFrom(colors, width, height, 0)| == dataBytes.Length by {
        RowsFromLength(colors, width, height, 0);
        ByteOffset(0, width, height, 0, 0);
      }
      for y := height downto 0
        invariant bytePtr == |RowsFrom(colors, width, height, y)| <= dataBytes.Length
        invariant dataBytes[..bytePtr] == RowsFrom(colors, width, height, y)
      {
        assert |RowsFrom(colors, width, height, y)| <= dataBytes.Length by {
          RowsFromPrefix(colors, width, height, 0, y);
        }
        assert |RowsFrom(colors, width, height, y)| == bytePtr + 4 * width by {
          RowPrefixLength(colors, width, height, y, width);
        }
        bytePtr := PackRow(colors, width, height, y, dataBytes, bytePtr);
      }
      assert dataBytes[..] == dataBytes[..bytePtr];
    }

    /** The inner loop of the packing: row `y`, left to right, written from
        `start` on. */
    static method PackRow(colors: seq<Color32>, width: nat, height: nat, y: nat, dataBytes: array<byte>, start: nat)
      returns (bytePtr: nat)
      requires |colors| == width * height && y < height
      requires start + 4 * width <= dataBytes.Length
      modifies dataBytes
      ensures bytePtr == start + 4 * width
      ensures dataBytes[..bytePtr] == old(dataBytes[..start]) + RowPrefix(colors, width, height, y, width)
      ensures dataBytes[bytePtr..] == old(dataBytes[bytePtr..])
    {
      bytePtr := start;
      for x := 0 to width
        invariant bytePtr == start + 4 * x
        invariant dataBytes[..bytePtr] == old(dataBytes[..start]) + RowPrefix(colors, width, height, y, x)
        invariant forall j :: bytePtr <= j < dataBytes.Length ==> dataBytes[j] == old(dataBytes[j])
      {
        var colorIdx := y * width + x;
        assert 0 <= colorIdx < |colors| by {
          CellInGrid(x, y, width, height);
        }
        bytePtr := PackPixel(colors[colorIdx], dataBytes, bytePtr);
        Associative(old(dataBytes[..start]), RowPrefix(colors, width, height, y, x), PixelBytes(colors[colorIdx]));
      }
    }

    /** Writes the R, G, B and A bytes of one pixel at `bytePtr` and returns
        the position after them. */
    static method PackPixel(c: Color32, dataBytes: array<byte>, bytePtr: nat) returns (next: nat)
      requires bytePtr + 4 <= dataBytes.Length
      modifies dataBytes
      ensures next == bytePtr + 4
      ensures dataBytes[..next] == old(dataBytes[..bytePtr]) + PixelBytes(c)
      ensures dataBytes[next..] == old(dataBytes[next..])
    {
      ghost var before := dataBytes[..bytePtr];
      next := bytePtr;
      dataBytes[next] := c.r;
      next := next + 1;
      assert dataBytes[..next] == before + [c.r];
      dataBytes[next] := c.g;
      next := next + 1;
      assert dataBytes[..next] == before + [c.r, c.g];
      dataBytes[next] := c.b;
      next := next + 1;
      assert dataBytes[..next] == before + [c.r, c.g, c.b];
      dataBytes[next] := c.a;
      next := next + 1;
    }

    /** Reads the int32 values at the confidence pointer up to the first -1:
        exactly the values in front of the first sentinel, in memory order. */
    static method ReadConfidences(confidenceWords: seq<int32>) returns (confidence: seq<int>)
      requires Sentinel in confidenceWords
      ensures confidence == BeforeSentinel(confidenceWords)
      ensures |confidence| < |confidenceWords| && confidenceWords[|confidence|] == Sentinel
      ensures confidence == confidenceWords[..|confidence|] && Sentinel !in confidence
    {
      BeforeSentinelIsPrefix(confidenceWords);
      ghost var expected := BeforeSentinel(confidenceWords);
      var i := 0;
      confidence := [];
      while true
        invariant 0 <= i <= |expected|
        invariant confidence == confidenceWords[..i]
        decreases |expected| - i
      {
        var tempConfidence := confidenceWords[i];
        if tempConfidence == -1 {
          break;
        }
        i := i + 1;
        confidence := confidence + [tempConfidence];
      }
    }

    /** Joins the confident words among the first `count`, each followed by a
        blank; it throws when a word or a confidence runs out first. */
    static method FilterWords(words: seq<string>, confidence: seq<int>, count: nat) returns (outcome: Outcome<string>)
      ensures count <= |words| && count <= |confidence| ==> outcome == Returned(Filtered(words, confidence, count))
      ensures count > |words| && |words| <= |confidence| ==> outcome == Threw(IndexOutOfRangeException)
      ensures count > |confidence| && |confidence| < |words| ==> outcome == Threw(ArgumentOutOfRangeException)
    {
      var result := "";
      var i := 0;
      while i < count
        invariant 0 <= i <= count && i <= |words| && i <= |confidence|
        invariant result == Filtered(words, confidence, i)
      {
        if i >= |words| {
          return Threw(IndexOutOfRangeException);
        }
        if i >= |confidence| {
          return Threw(ArgumentOutOfRangeException);
        }
        if confidence[i] >= MinimumConfidence {
          result := result + words[i];
          result := result + " ";
        }
        i := i + 1;
      }
      return Returned(result);
    }

    /** Paints the outline of `boundingRect`: the horizontal bands `thickness`
        lines deep along its bottom and top edges and the vertical bands along
        its left and right edges, and no other pixel. */
    static method DrawLines(texture: Texture, boundingRect: Rect, color: Color32, thickness: int)
      modifies texture`pixels
      ensures texture.pixels == DrawnLines(old(texture.pixels), boundingRect, color, thickness)
      ensures Outlined(old(texture.pixels), texture.pixels, boundingRect, thickness, color)
      ensures old(texture.pixels).Keys <= texture.pixels.Keys
    {
      ghost var before := texture.pixels;
      var x1 := boundingRect.x;
      var x2 := boundingRect.x + boundingRect.width;
      var y1 := boundingRect.y;
      var y2 := boundingRect.y + boundingRect.height;

      var x := x1;
      while x <= x2
        invariant x1 <= x && (x <= x2 + 1 || x == x1)
        invariant texture.pixels == PaintColumns(before, x1, x, y1, y2, thickness, color)
        decreases x2 - x
      {
        var i := 0;
        while i < thickness
          invariant 0 <= i && (i <= thickness || i == 0)
          invariant texture.pixels == PaintColumn(PaintColumns(before, x1, x, y1, y2, thickness, color), x, y1, y2, i, color)
        {
          texture.SetPixel(x, y1 + i, color);
          texture.SetPixel(x, y2 - i, color);
          i := i + 1;
        }
        x := x + 1;
      }
      ghost var columns := texture.pixels;

      var y := y1;
      while y <= y2
        invariant y1 <= y && (y <= y2 + 1 || y == y1)
        invariant texture.pixels == PaintRows(columns, y1, y, x1, x2, thickness, color)
        decreases y2 - y
      {
        var i := 0;
        while i < thickness
          invariant 0 <= i && (i <= thickness || i == 0)
          invariant texture.pixels == PaintRow(PaintRows(columns, y1, y, x1, x2, thickness, color), y, x1, x2, i, color)
        {
          texture.SetPixel(x1 + i, y, color);
          texture.SetPixel(x2 - i, y, color);
          i := i + 1;
        }
        y := y + 1;
      }
      DrawnLinesOutlined(before, boundingRect, color, thickness);
    }

    /** The box loop of a recognition: for each of the `boxes.Length` words
        in turn, a confident one has its box read and its outline drawn
        magenta. It throws when the confidences run out before the boxes. */
    static method HighlightBoxes(texture: Texture, boxes: array<Box>, confidence: seq<int>, engine: EngineResult)
      returns (fault: Option<Exception>)
      requires WellFormed(engine) && texture.Valid() && boxes.Length == engine.boxa.n
      modifies texture`pixels, boxes
      ensures texture.Valid()
      ensures fault == if |confidence| < boxes.Length then Some(ArgumentOutOfRangeException) else None
      ensures texture.pixels == Highlights(old(texture.pixels), engine, confidence, Reached(|confidence|, boxes.Length), texture.height)
      ensures boxes[..] == StoredBoxes(old(boxes[..]), engine, confidence, Reached(|confidence|, boxes.Length))
    {
      ghost var before := texture.pixels;
      ghost var empty := boxes[..];
      fault := None;
      var index := 0;
      while index < boxes.Length
        invariant 0 <= index <= boxes.Length && index <= |confidence|
        invariant texture.Valid()
        invariant texture.pixels == Highlights(before, engine, confidence, index, texture.height)
        invariant boxes[..] == StoredBoxes(empty, engine, confidence, index)
      {
        if index >= |confidence| {
          fault := Some(ArgumentOutOfRangeException);
          break;
        }
        HighlightWord(texture, boxes, confidence, engine, index, before);
        index := index + 1;
      }
    }

    /** One pass of the box loop: reads box `index` and outlines it when its
        word is confident enough. */
    static method HighlightWord(texture: Texture, boxes: array<Box>, confidence: seq<int>, engine: EngineResult,
                                index: nat, ghost before: Canvas)
      requires WellFormed(engine) && texture.Valid() && boxes.Length == engine.boxa.n
      requires index < boxes.Length && index < |confidence|
      requires texture.pixels == Highlights(before, engine, confidence, index, texture.height)
      modifies texture`pixels, boxes
      ensures texture.Valid()
      ensures texture.pixels == Highlights(before, engine, confidence, index + 1, texture.height)
      ensures boxes[..] == if Confident(confidence[index]) then old(boxes[..])[index := BoxAt(engine, index)]
                           else old(boxes[..])
    {
      if confidence[index] >= MinimumConfidence {
        var boxPtr := engine.boxPointers[index];
        boxes[index] := engine.boxRecords[boxPtr];
        var box := boxes[index];
        DrawLines(texture, HighlightRect(box, texture.height), Magenta, DefaultThickness);
      }
    }
  }
}
