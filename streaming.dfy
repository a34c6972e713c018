/** The loop of `generate_ollama_response` that folds the streamed chunks into
    `full_response` and shows the running text after every chunk that carries a
    `'response'` field. */
module Streaming {
  import opened Text

  /** One streamed chunk, as the dictionary the client yields. */
  type Chunk = map<string, string>

  const RESPONSE_KEY: string := "response"

  /** The `'response'` fields of the chunks that have one, in arrival order. */
  function Responses(chunks: seq<Chunk>): seq<string>
  {
    if chunks == [] then []
    else
      var last := chunks[|chunks| - 1];
      Responses(chunks[..|chunks| - 1]) + (if RESPONSE_KEY in last then [last[RESPONSE_KEY]] else [])
  }

  /** The text the stream amounts to. */
  function ResponseText(chunks: seq<Chunk>): string
  {
    Concat(Responses(chunks))
  }

  /** The successive values shown: after the k-th contributing chunk, the
      concatenation of the first k + 1 responses. */
  function RunningTexts(parts: seq<string>): (r: seq<string>)
    ensures |r| == |parts|
    ensures forall k :: 0 <= k < |parts| ==> r[k] == Concat(parts[..k + 1])
  {
    seq(|parts|, k requires 0 <= k < |parts| => Concat(parts[..k + 1]))
  }

  function Displayed(chunks: seq<Chunk>): seq<string>
  {
    RunningTexts(Responses(chunks))
  }

  /** The streaming loop: returns `full_response` and every value passed to
      `response_container.markdown`, in order. */
  method AccumulateStream(chunks: seq<Chunk>) returns (full: string, shown: seq<string>)
    ensures full == ResponseText(chunks)
    ensures shown == Displayed(chunks)
  {
    full, shown := "", [];
    for i := 0 to |chunks|
      invariant full == ResponseText(chunks[..i])
      invariant shown == Displayed(chunks[..i])
    {
      var chunk := chunks[i];
      assert chunks[..i + 1][..i] == chunks[..i];
      if RESPONSE_KEY in chunk {
        ghost var parts := Responses(chunks[..i]);
        assert Responses(chunks[..i + 1]) == parts + [chunk[RESPONSE_KEY]];
        assert (parts + [chunk[RESPONSE_KEY]])[..|parts|] == parts;
        full := full + chunk[RESPONSE_KEY];
        shown := shown + [full];
        assert shown == RunningTexts(parts + [chunk[RESPONSE_KEY]]) by {
          forall k | 0 <= k < |parts| + 1
            ensures shown[k] == RunningTexts(parts + [chunk[RESPONSE_KEY]])[k]
          {
            if k < |parts| {
              assert (parts + [chunk[RESPONSE_KEY]])[..k + 1] == parts[..k + 1];
            } else {
              assert (parts + [chunk[RESPONSE_KEY]])[..k + 1] == parts + [chunk[RESPONSE_KEY]];
            }
          }
        }
      } else {
        assert Responses(chunks[..i + 1]) == Responses(chunks[..i]);
      }
    }
    assert chunks[..|chunks|] == chunks;
  }

  /** Every value shown extends every value shown before it, and each is a
      prefix of the final text. */
  lemma DisplayedArePrefixes(chunks: seq<Chunk>)
    ensures forall j, k :: 0 <= j <= k < |Displayed(chunks)| ==>
      Displayed(chunks)[j] <= Displayed(chunks)[k]
    ensures forall k :: 0 <= k < |Displayed(chunks)| ==>
      Displayed(chunks)[k] <= ResponseText(chunks)
  {
    var parts := Responses(chunks);
    forall j, k | 0 <= j <= k <= |parts|
      ensures Concat(parts[..j]) <= Concat(parts[..k])
    {
      assert parts[..k] == parts[..j] + parts[j..k];
      ConcatAppend(parts[..j], parts[j..k]);
    }
    assert parts[..|parts|] == parts;
  }

  /** The last value shown is the whole response. */
  lemma LastDisplayedIsFull(chunks: seq<Chunk>)
    requires |Displayed(chunks)| > 0
    ensures Displayed(chunks)[|Displayed(chunks)| - 1] == ResponseText(chunks)
  {
    var parts := Responses(chunks);
    assert parts[..|parts|] == parts;
  }

  /** Chunks without a `'response'` field contribute nothing and show nothing. */
  lemma SilentChunk(chunks: seq<Chunk>, c: Chunk)
    requires RESPONSE_KEY !in c
    ensures ResponseText(chunks + [c]) == ResponseText(chunks)
    ensures Displayed(chunks + [c]) == Displayed(chunks)
  {
    assert (chunks + [c])[..|chunks|] == chunks;
    assert Responses(chunks + [c]) == Responses(chunks);
  }

  /** The response text of a stream splits at any point of the stream. */
  lemma {:induction false} ResponsesAppend(xs: seq<Chunk>, ys: seq<Chunk>)
    ensures Responses(xs + ys) == Responses(xs) + Responses(ys)
    ensures ResponseText(xs + ys) == ResponseText(xs) + ResponseText(ys)
  {
    if ys == [] {
      assert xs + ys == xs;
    } else {
      var n := |ys| - 1;
      assert (xs + ys)[..|xs + ys| - 1] == xs + ys[..n];
      ResponsesAppend(xs, ys[..n]);
    }
    ConcatAppend(Responses(xs), Responses(ys));
  }

  /** Chunks "Hel" and "lo" are shown as "Hel" and then "Hello". */
  lemma HelloExample()
    ensures Displayed([map[RESPONSE_KEY := "Hel"], map[RESPONSE_KEY := "lo"]]) == ["Hel", "Hello"]
  {
    var c1: Chunk, c2: Chunk := map[RESPONSE_KEY := "Hel"], map[RESPONSE_KEY := "lo"];
    assert [c1, c2][..1] == [c1];
    assert [c1][..0] == [];
    assert Responses([c1]) == ["Hel"];
    assert Responses([c1, c2]) == ["Hel", "lo"];
    assert Concat(["Hel"]) == "Hel";
    assert ["Hel", "lo"][..1] == ["Hel"];
    assert Concat(["Hel", "lo"]) == "Hello";
    assert ["Hel", "lo"][..2] == ["Hel", "lo"];
  }
}
