/** What the wrapper makes of the engine's answers: the confidence list cut at
    its -1 sentinel, and the text that keeps only confident words. */
module Results {
  import opened Text

  /** Words scored below this are dropped from the text and not highlighted. */
  const MinimumConfidence: int := 60

  /** The value that ends the engine's confidence array. */
  const Sentinel: int := -1

  predicate Confident(confidence: int) {
    confidence >= MinimumConfidence
  }

  // ---------------------------------------------------------------------------
  // The sentinel-terminated confidence array

  /** The int32 values at the confidence pointer up to, and not including,
      the first sentinel. */
  function BeforeSentinel(words: seq<int>): seq<int>
    decreases |words|
  {
    if words == [] || words[0] == Sentinel then [] else [words[0]] + BeforeSentinel(words[1..])
  }

  /** When the engine wrote its sentinel, the list is exactly the values in
      front of the first one, in memory order, and never holds the sentinel. */
  lemma {:induction false} BeforeSentinelIsPrefix(words: seq<int>)
    requires Sentinel in words
    ensures |BeforeSentinel(words)| < |words|
    ensures BeforeSentinel(words) == words[..|BeforeSentinel(words)|]
    ensures words[|BeforeSentinel(words)|] == Sentinel
    ensures Sentinel !in BeforeSentinel(words)
    decreases |words|
  {
    if words[0] != Sentinel {
      BeforeSentinelIsPrefix(words[1..]);
    }
  }

  /** Whatever follows the first sentinel is never read. */
  lemma {:induction false} BeforeSentinelIgnoresTail(words: seq<int>, tail: seq<int>)
    requires Sentinel in words
    ensures BeforeSentinel(words + tail) == BeforeSentinel(words)
    decreases |words|
  {
    if words[0] != Sentinel {
      assert (words + tail)[1..] == words[1..] + tail;
      BeforeSentinelIgnoresTail(words[1..], tail);
    }
  }

  // ---------------------------------------------------------------------------
  // Filtering the recognised words

  /** The text built from the first `n` words: each confident word followed by
      one blank, in word order. */
  function Filtered(words: seq<string>, confidence: seq<int>, n: nat): string
    requires n <= |words| && n <= |confidence|
  {
    if n == 0 then ""
    else Filtered(words, confidence, n - 1) +
         (if Confident(confidence[n - 1]) then words[n - 1] + " " else "")
  }

  /** The confident words among the first `n`, in order. */
  function KeptWords(words: seq<string>, confidence: seq<int>, n: nat): (kept: seq<string>)
    requires n <= |words| && n <= |confidence|
    ensures |kept| <= n
  {
    if n == 0 then []
    else KeptWords(words, confidence, n - 1) +
         (if Confident(confidence[n - 1]) then [words[n - 1]] else [])
  }

  /** Each word followed by one blank. */
  function JoinSpaced(ws: seq<string>): string {
    if ws == [] then "" else JoinSpaced(ws[..|ws| - 1]) + ws[|ws| - 1] + " "
  }

  lemma JoinSpacedSnoc(ws: seq<string>, w: string)
    ensures JoinSpaced(ws + [w]) == JoinSpaced(ws) + w + " "
  {
    assert (ws + [w])[..|ws|] == ws;
  }

  lemma {:induction false} JoinSpacedCons(w: string, ws: seq<string>)
    ensures JoinSpaced([w] + ws) == w + " " + JoinSpaced(ws)
    decreases |ws|
  {
    if ws == [] {
      assert [w] + ws == [] + [w];
      JoinSpacedSnoc([], w);
    } else {
      var last := ws[|ws| - 1];
      var init := ws[..|ws| - 1];
      assert ws == init + [last];
      assert [w] + ws == ([w] + init) + [last];
      calc {
        JoinSpaced([w] + ws);
        { JoinSpacedSnoc([w] + init, last); }
        JoinSpaced([w] + init) + last + " ";
        { JoinSpacedCons(w, init); }
        (w + " " + JoinSpaced(init)) + last + " ";
        { assert (w + " " + JoinSpaced(init)) + last + " " == w + " " + (JoinSpaced(init) + last + " "); }
        w + " " + (JoinSpaced(init) + last + " ");
        { JoinSpacedSnoc(init, last); }
        w + " " + JoinSpaced(ws);
      }
    }
  }

  /** The filtered text is the kept words, each followed by a blank. */
  lemma {:induction false} FilteredIsJoinOfKept(words: seq<string>, confidence: seq<int>, n: nat)
    requires n <= |words| && n <= |confidence|
    ensures Filtered(words, confidence, n) == JoinSpaced(KeptWords(words, confidence, n))
  {
    if n > 0 {
      FilteredIsJoinOfKept(words, confidence, n - 1);
      var prior := KeptWords(words, confidence, n - 1);
      if Confident(confidence[n - 1]) {
        JoinSpacedSnoc(prior, words[n - 1]);
      } else {
        assert KeptWords(words, confidence, n) == prior + [] == prior;
      }
    }
  }

  /** The text is empty exactly when no word among the first `n` is confident. */
  lemma {:induction false} FilteredEmptyIff(words: seq<string>, confidence: seq<int>, n: nat)
    requires n <= |words| && n <= |confidence|
    ensures Filtered(words, confidence, n) == "" <==> forall i :: 0 <= i < n ==> !Confident(confidence[i])
  {
    if n > 0 {
      FilteredEmptyIff(words, confidence, n - 1);
    }
  }

  /** Every word that is kept is a word of the input with a confident score,
      and every confident word is kept. */
  lemma {:induction false} KeptWordsExactly(words: seq<string>, confidence: seq<int>, n: nat)
    requires n <= |words| && n <= |confidence|
    ensures forall w :: w in KeptWords(words, confidence, n) <==>
                        exists i :: 0 <= i < n && Confident(confidence[i]) && words[i] == w
  {
    if n > 0 {
      KeptWordsExactly(words, confidence, n - 1);
      forall w | w in KeptWords(words, confidence, n)
        ensures exists i :: 0 <= i < n && Confident(confidence[i]) && words[i] == w
      {
        if w !in KeptWords(words, confidence, n - 1) {
          assert Confident(confidence[n - 1]) && words[n - 1] == w;
        }
      }
    }
  }

  lemma {:induction false} SplitJoinSpaced(ws: seq<string>)
    requires forall k :: 0 <= k < |ws| ==> IsToken(ws[k])
    ensures SplitWords(JoinSpaced(ws)) == ws
    decreases |ws|
  {
    if ws != [] {
      var w, rest := ws[0], ws[1..];
      assert [w] + rest == ws;
      assert IsToken(w);
      assert forall k :: 0 <= k < |rest| ==> IsToken(rest[k]) by {
        forall k | 0 <= k < |rest| ensures IsToken(rest[k]) {
          assert rest[k] == ws[k + 1];
        }
      }
      calc {
        SplitWords(JoinSpaced(ws));
        { JoinSpacedCons(w, rest); }
        SplitWords(w + " " + JoinSpaced(rest));
        { SplitWordsCons(w, JoinSpaced(rest)); }
        [w] + SplitWords(JoinSpaced(rest));
        { SplitJoinSpaced(rest); }
        [w] + rest;
      }
    } else {
      assert SkipSeparators("") == "";
    }
  }

  /** When the words are what `Split` produced, splitting the filtered text
      again gives back exactly the kept words. */
  lemma FilteredSplitsIntoKept(words: seq<string>, confidence: seq<int>, n: nat)
    requires n <= |words| && n <= |confidence|
    requires forall k :: 0 <= k < |words| ==> IsToken(words[k])
    ensures SplitWords(Filtered(words, confidence, n)) == KeptWords(words, confidence, n)
  {
    FilteredIsJoinOfKept(words, confidence, n);
    KeptAreTokens(words, confidence, n);
    SplitJoinSpaced(KeptWords(words, confidence, n));
  }

  lemma {:induction false} KeptAreTokens(words: seq<string>, confidence: seq<int>, n: nat)
    requires n <= |words| && n <= |confidence|
    requires forall k :: 0 <= k < |words| ==> IsToken(words[k])
    ensures forall k :: 0 <= k < |KeptWords(words, confidence, n)| ==> IsToken(KeptWords(words, confidence, n)[k])
  {
    if n > 0 {
      KeptAreTokens(words, confidence, n - 1);
    }
  }

  /** Scores 80, 40 and 61 for "Hello", "World" and "Foo" keep the first and
      the last word. */
  lemma FilteredExample()
    ensures Filtered(["Hello", "World", "Foo"], [80, 40, 61], 3) == "Hello Foo "
  {
  }
}
