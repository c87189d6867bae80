/**
 * The pure helpers of the PDF-to-quiz extractor (`mcq_extractor_gui.py`):
 * the API key lookup and its masked display, the model registry and the
 * queue built from it, the clean-up of a model's reply into JSON text, the
 * split of the PDF into ten-page chunks, and how the extracted questions are
 * numbered into sets and appended to the questions file.
 */
module PdfExtractor {
  import opened Wrappers
  import opened Strings
  import opened McqEditor
  import StableSort

  // ---------------------------------------------------------------------------
  // The API key
  // ---------------------------------------------------------------------------

  /** The key from the `GEMINI_API_KEY` environment variable (`env`); unset
      and empty both count as no key. */
  function ApiKey(env: Option<string>): (r: Option<string>)
    ensures r.Some? <==> env.Some? && env.value != ""
    ensures r.Some? ==> r == env
  {
    if env.None? || env.value == "" then None else env
  }

  /** `s[:n]` for `n >= 0` */
  function Head(s: string, n: nat): (r: string)
    ensures |r| == if n < |s| then n else |s|
  {
    if n < |s| then s[..n] else s
  }

  /** `s[-n:]` for `n > 0` */
  function Tail(s: string, n: nat): (r: string)
    ensures |r| == if n < |s| then n else |s|
  {
    if n < |s| then s[|s| - n..] else s
  }

  /** `"*" * n`, empty for `n <= 0`. */
  function Stars(n: int): (r: string)
    ensures |r| == if n <= 0 then 0 else n
    ensures forall i :: 0 <= i < |r| ==> r[i] == '*'
  {
    if n <= 0 then "" else seq(n, _ => '*')
  }

  /** The key as the status line shows it: `key[:4] + "*" * (len(key) - 8) + key[-4:]` */
  function MaskKey(key: string): string {
    Head(key, 4) + Stars(|key| - 8) + Tail(key, 4)
  }

  /** A key of eight characters or more keeps its length, its first and last
      four characters, and shows a star everywhere between. */
  lemma MaskHidesMiddle(key: string)
    requires |key| >= 8
    ensures |MaskKey(key)| == |key|
    ensures MaskKey(key)[..4] == key[..4] && MaskKey(key)[|key| - 4..] == key[|key| - 4..]
    ensures forall i :: 4 <= i < |key| - 4 ==> MaskKey(key)[i] == '*'
  {
    var m := MaskKey(key);
    assert m == key[..4] + Stars(|key| - 8) + key[|key| - 4..];
    forall i | 4 <= i < |key| - 4
      ensures m[i] == '*'
    {
      assert m[i] == Stars(|key| - 8)[i - 4];
    }
  }

  /** A shorter key is shown in full, with no star: a key of up to four
      characters twice over, a longer one as its first four characters and
      its last four, which overlap. */
  lemma ShortKeyShown(key: string)
    requires |key| < 8
    ensures '*' !in Stars(|key| - 8)
    ensures |key| <= 4 ==> MaskKey(key) == key + key
    ensures 4 < |key| ==> MaskKey(key) == key[..4] + key[|key| - 4..]
  {
  }

  // ---------------------------------------------------------------------------
  // The model registry and queue
  // ---------------------------------------------------------------------------

  const SupportedModels: seq<string> := [
      "models/gemini-2.0-flash-exp",
      "models/gemini-2.0-flash",
      "models/gemini-2.0-flash-001",
      "models/gemini-2.0-flash-lite",
      "models/gemini-2.0-flash-lite-preview-02-05",
      "models/gemini-2.0-flash-lite-preview",
      "models/gemini-2.0-flash-lite-001",
      "models/gemini-exp-1206",
      "models/deep-research-pro-preview-12-2025",
      "models/gemini-2.5-flash",
      "models/gemini-2.5-pro",
      "models/gemini-2.5-flash-lite",
      "models/gemini-2.5-flash-preview-09-2025",
      "models/gemini-2.5-flash-lite-preview-09-2025",
      "models/gemini-2.5-computer-use-preview-10-2025",
      "models/gemini-3-pro-preview",
      "models/gemini-flash-latest",
      "models/gemini-flash-lite-latest",
      "models/gemini-pro-latest",
      "models/gemini-1.5-pro",
      "models/gemini-1.5-flash",
      "models/gemini-1.5-flash-8b",
      "models/gemini-robotics-er-1.5-preview",
      "models/nano-banana-pro-preview"
    ]

  const UnsupportedModels: seq<string> := [
      "models/gemma-3-1b-it",
      "models/gemma-3-4b-it",
      "models/gemma-3-12b-it",
      "models/gemma-3-27b-it",
      "models/gemma-3n-e4b-it",
      "models/gemma-3n-e2b-it",
      "models/gemini-2.0-flash-exp-image-generation",
      "models/gemini-2.5-flash-image-preview",
      "models/gemini-2.5-flash-image",
      "models/gemini-3-pro-image-preview",
      "models/imagen-4.0-generate-preview-06-06",
      "models/imagen-4.0-ultra-generate-preview-06-06",
      "models/imagen-4.0-generate-001",
      "models/imagen-4.0-ultra-generate-001",
      "models/imagen-4.0-fast-generate-001",
      "models/veo-2.0-generate-001",
      "models/veo-3.0-generate-001",
      "models/veo-3.0-fast-generate-001",
      "models/veo-3.1-generate-preview",
      "models/veo-3.1-fast-generate-preview",
      "models/gemini-2.5-flash-preview-tts",
      "models/gemini-2.5-pro-preview-tts",
      "models/gemini-2.5-flash-native-audio-latest",
      "models/gemini-2.5-flash-native-audio-preview-09-2025",
      "models/embedding-gecko-001",
      "models/embedding-001",
      "models/text-embedding-004",
      "models/gemini-embedding-exp-03-07",
      "models/gemini-embedding-exp",
      "models/gemini-embedding-001",
      "models/aqa"
    ]

  /** The registry: the supported models first, then the rest. */
  function AvailableModels(): (r: seq<string>)
    ensures |r| == 55
    ensures r[..24] == SupportedModels && r[24..] == UnsupportedModels
  {
    SupportedModels + UnsupportedModels
  }

  datatype QueueEntry = QueueEntry(name: string, jsonMode: bool, sleep: nat)

  /** Strict JSON output is asked of Gemini models, judged on the lower-cased
      name, except image and audio variants. */
  predicate JsonMode(m: string) {
    Contains(Lower(m), "gemini") && !Contains(Lower(m), "image") && !Contains(Lower(m), "audio")
  }

  /** Seconds to wait after a call: short for flash and gemma models, judged
      on the name as written. */
  function SleepFor(m: string): (r: nat)
    ensures r == 2 || r == 10
    ensures r == 2 <==> Contains(m, "flash") || Contains(m, "gemma")
  {
    if Contains(m, "flash") || Contains(m, "gemma") then 2 else 10
  }

  /** One queue entry per model, in registry order. */
  function BuildModelQueue(models: seq<string>): (r: seq<QueueEntry>)
    ensures |r| == |models|
    ensures forall i :: 0 <= i < |r| ==> r[i].name == models[i]
    ensures forall i :: 0 <= i < |r| ==> (r[i].jsonMode <==> JsonMode(models[i])) && r[i].sleep == SleepFor(models[i])
  {
    if |models| == 0 then []
    else [QueueEntry(models[0], JsonMode(models[0]), SleepFor(models[0]))] + BuildModelQueue(models[1..])
  }

  /** Building the queue commutes with joining model lists, so the supported
      models stay ahead of the rest in the queue. */
  lemma {:induction false} QueueOfJoin(a: seq<string>, b: seq<string>)
    ensures BuildModelQueue(a + b) == BuildModelQueue(a) + BuildModelQueue(b)
    decreases |a|
  {
    if |a| == 0 {
      assert a + b == b;
    } else {
      assert (a + b)[1..] == a[1..] + b;
      QueueOfJoin(a[1..], b);
    }
  }

  /** JSON mode reads the name ignoring case. */
  lemma JsonModeIgnoresCase()
    ensures JsonMode("models/GEMINI-PRO")
  {
    LowerName();
    ContainsSpliced("models/", "gemini", "-pro");
    GeminiWithoutA("models/GEMINI-PRO");
  }

  /** A lower-cased name with `gemini` and no `a` is neither an image nor an
      audio variant. */
  lemma GeminiWithoutA(m: string)
    requires Contains(Lower(m), "gemini") && 'a' !in Lower(m)
    ensures JsonMode(m)
  {
    AbsentChar(Lower(m), "image", 2);
    AbsentChar(Lower(m), "audio", 0);
  }

  lemma LowerName()
    ensures Lower("models/GEMINI-PRO") == "models/" + "gemini" + "-pro"
    ensures 'a' !in Lower("models/GEMINI-PRO")
  {
    var u := "models/GEMINI-PRO";
    var l := "models/gemini-pro";
    forall i | 0 <= i < |u|
      ensures Lower(u)[i] == l[i]
    {
    }
    assert Lower(u) == l;
    assert "models/" + "gemini" + "-pro" == l;
  }

  /** The wait reads the name as written: an upper-case GEMMA gets the long
      wait. */
  lemma SleepHeedsCase()
    ensures SleepFor("models/GEMMA-3") == 10 && SleepFor("models/gemma-3") == 2
  {
    UpperGemmaWaitsLong();
    LowerGemmaWaitsShort();
  }

  lemma LowerGemmaWaitsShort()
    ensures SleepFor("models/gemma-3") == 2
  {
    ContainsSpliced("models/", "gemma", "-3");
    assert "models/" + "gemma" + "-3" == "models/gemma-3";
  }

  lemma UpperGemmaWaitsLong()
    ensures SleepFor("models/GEMMA-3") == 10
  {
    var m := "models/GEMMA-3";
    assert 'f' !in m && 'g' !in m;
    LongWaitWithoutFG(m);
  }

  /** A name with neither an `f` nor a `g` matches neither fast-model mark. */
  lemma LongWaitWithoutFG(m: string)
    requires 'f' !in m && 'g' !in m
    ensures SleepFor(m) == 10
  {
    AbsentChar(m, "flash", 0);
    AbsentChar(m, "gemma", 0);
  }

  // ---------------------------------------------------------------------------
  // Cleaning a reply into JSON text
  // ---------------------------------------------------------------------------

  const JsonFence := "```json"
  const Ticks := "```"

  /** How many whitespace characters `s` starts with (what `\s*` takes). */
  function SpaceCount(s: string): (n: nat)
    ensures n <= |s| && AllSpace(s[..n]) && (n < |s| ==> !IsSpace(s[n]))
  {
    |s| - |TrimStart(s)|
  }

  /** Where the fenced JSON starts: after the fence at `p` and the
      whitespace that follows it. */
  function BodyStart(text: string, p: nat): (r: nat)
    requires p + |JsonFence| <= |text|
    ensures p + |JsonFence| <= r <= |text|
  {
    p + |JsonFence| + SpaceCount(text[p + |JsonFence|..])
  }

  /** The group of `r"```json\s*(.*?)```"` under `re.DOTALL`: after the first
      fence and its whitespace, up to the next three backticks. A later fence
      cannot match where the first failed, since any fence after it holds
      three backticks itself. */
  function FencedBody(text: string): (r: Option<string>)
    ensures r.Some? ==> exists i, j :: 0 <= i <= j <= |text| && r.value == text[i..j]
    ensures !Contains(text, JsonFence) ==> r.None?
  {
    match FindFrom(text, JsonFence, 0)
    case None => None
    case Some(p) =>
      var start := BodyStart(text, p);
      match FindFrom(text, Ticks, start)
      case None => None
      case Some(q) => Some(text[start..q])
  }

  /** The fenced JSON never holds three backticks. */
  lemma FencedBodyHasNoTicks(text: string)
    ensures FencedBody(text).Some? ==> !Contains(FencedBody(text).value, Ticks)
  {
    if FencedBody(text).Some? {
      var p := FindFrom(text, JsonFence, 0).value;
      var q := FindFrom(text, Ticks, BodyStart(text, p)).value;
      NoOccurrenceInSlice(text, Ticks, BodyStart(text, p), q);
    }
  }

  /** Position of the first `c` in `s`. */
  function FirstIndex(s: string, c: char): (r: Option<nat>)
    ensures r.Some? ==> r.value < |s| && s[r.value] == c && forall k :: 0 <= k < r.value ==> s[k] != c
    ensures r.None? <==> c !in s
  {
    if |s| == 0 then None
    else if s[0] == c then Some(0)
    else
      match FirstIndex(s[1..], c)
      case None => None
      case Some(k) => Some(k + 1)
  }

  /** Position of the last `c` in `s`. */
  function LastIndex(s: string, c: char): (r: Option<nat>)
    ensures r.Some? ==> r.value < |s| && s[r.value] == c && forall k :: r.value < k < |s| ==> s[k] != c
    ensures r.None? <==> c !in s
  {
    if |s| == 0 then None
    else if s[|s| - 1] == c then Some(|s| - 1)
    else LastIndex(s[..|s| - 1], c)
  }

  /** The match of `r"\[.*\]"` under `re.DOTALL`: from the first `[` to the
      last `]`, when that `]` comes after it. */
  function BracketSpan(text: string): (r: Option<string>)
    ensures r.Some? ==> exists i, j :: 0 <= i < j <= |text| && r.value == text[i..j] && text[i] == '[' && text[j - 1] == ']'
    ensures r.Some? ==> |r.value| >= 2 && r.value[0] == '[' && r.value[|r.value| - 1] == ']'
    ensures r.None? <==> forall i, j :: 0 <= i < j < |text| ==> text[i] != '[' || text[j] != ']'
  {
    var a, b := FirstIndex(text, '['), LastIndex(text, ']');
    if a.None? || b.None? || b.value <= a.value then
      assert forall i, j :: 0 <= i < j < |text| ==> text[i] != '[' || text[j] != ']' by {
        forall i, j | 0 <= i < j < |text| && text[i] == '['
          ensures text[j] != ']'
        {
          assert text[i] in text;
        }
      }
      None
    else
      assert text[a.value..b.value + 1][0] == '[';
      Some(text[a.value..b.value + 1])
  }

  /** `clean_json_text`: `"[]"` for an empty reply; else the body of the
      first ```json fence; else the outermost bracketed span; else the reply
      itself. Whatever it returns is a piece of the reply; a fenced body holds
      no three backticks, and a bracketed span runs from `[` to `]`. */
  function CleanJsonText(text: string): (r: string)
    ensures text == "" ==> r == "[]"
    ensures text != "" ==> exists i, j :: 0 <= i <= j <= |text| && r == text[i..j]
    ensures text != "" && FencedBody(text).Some? ==> !Contains(r, Ticks)
    ensures text != "" && FencedBody(text).None? && (exists i, j :: 0 <= i < j < |text| && text[i] == '[' && text[j] == ']')
      ==> |r| >= 2 && r[0] == '[' && r[|r| - 1] == ']'
    ensures text != "" && FencedBody(text).None? && (forall i, j :: 0 <= i < j < |text| ==> text[i] != '[' || text[j] != ']')
      ==> r == text
    ensures text != "" && !Contains(text, JsonFence) && (forall i, j :: 0 <= i < j < |text| ==> text[i] != '[' || text[j] != ']')
      ==> r == text
  {
    FencedBodyHasNoTicks(text);
    if text == "" then "[]"
    else
      var fenced := FencedBody(text);
      if fenced.Some? then fenced.value
      else
        var span := BracketSpan(text);
        if span.Some? then
          SpanHasPair(text);
          span.value
        else
          assert text == text[0..|text|];
          text
  }

  /** A bracketed span is a piece of the reply, and the reply has a `[`
      before a `]`. */
  lemma SpanHasPair(text: string)
    requires BracketSpan(text).Some?
    ensures exists i, j :: 0 <= i <= j <= |text| && BracketSpan(text).value == text[i..j]
    ensures exists i, j :: 0 <= i < j < |text| && text[i] == '[' && text[j] == ']'
  {
    var i, j :| 0 <= i < j <= |text| && BracketSpan(text).value == text[i..j] && text[i] == '[' && text[j - 1] == ']';
    assert text[i] == '[' && text[j - 1] == ']';
    assert j - 1 != i;
  }

  /** A reply gives back exactly the JSON of its first ```json fence, up to
      the first three backticks after it, whatever surrounds it: `pre` holds
      no earlier fence (not even one running into the fence), `json` no three
      backticks (not even ones running into the closing ones), and the JSON
      does not start with whitespace, which the pattern's `\s*` would take. */
  lemma FenceRoundTrip(pre: string, ws: string, json: string, post: string)
    requires !Contains(pre + JsonFence[..|JsonFence| - 1], JsonFence)
    requires !Contains(json + Ticks[..|Ticks| - 1], Ticks)
    requires AllSpace(ws) && (json == "" || !IsSpace(json[0]))
    ensures CleanJsonText(pre + JsonFence + ws + json + Ticks + post) == json
  {
    FencedReply(pre + JsonFence + ws + json + Ticks + post, pre, ws, json, post);
  }

  /** Inline code in the fenced JSON does not cut it short. */
  lemma InlineCodeKept()
    ensures CleanJsonText("```json\n[\"`Trigger.new`\"]\n```") == "[\"`Trigger.new`\"]\n"
  {
    var json := "[\"`Trigger.new`\"]\n";
    AbsentChar("" + JsonFence[..|JsonFence| - 1], JsonFence, 6);
    InlineCodeHasNoTicks(json);
    assert "" + JsonFence + "\n" + json + Ticks + "" == "```json\n[\"`Trigger.new`\"]\n```";
    FenceRoundTrip("", "\n", json, "");
  }

  /** The JSON of the inline-code reply, even run into the closing ticks,
      never holds three backticks in a row. */
  lemma InlineCodeHasNoTicks(json: string)
    requires json == "[\"`Trigger.new`\"]\n"
    ensures !Contains(json + Ticks[..|Ticks| - 1], Ticks)
  {
    var w := json + Ticks[..|Ticks| - 1];
    assert w == "[\"`Trigger.new`\"]\n``";
    NoTripleTicks(w);
  }

  /** Text without three backticks in a row does not contain ```. */
  lemma NoTripleTicks(w: string)
    requires forall q :: 0 <= q < |w| - 2 ==> w[q] != '`' || w[q + 1] != '`' || w[q + 2] != '`'
    ensures !Contains(w, Ticks)
  {
    forall q: nat
      ensures !StartsAt(w, Ticks, q)
    {
      if q + 3 <= |w| {
        assert w[q..q + 3][0] == w[q] && w[q..q + 3][1] == w[q + 1] && w[q..q + 3][2] == w[q + 2];
      }
    }
  }

  /** A ```json fence that is never closed, as in a cut-off reply, is passed
      over: the reply gives its outermost bracketed span if it has one, and
      otherwise comes back whole. */
  lemma UnclosedFenceFallsBack(pre: string, rest: string)
    requires !Contains(pre + JsonFence[..|JsonFence| - 1], JsonFence)
    requires !Contains(rest, Ticks)
    ensures var text := pre + JsonFence + rest;
      CleanJsonText(text) == if BracketSpan(text).Some? then BracketSpan(text).value else text
  {
    var text := pre + JsonFence + rest;
    FindAfterClear("", pre, JsonFence, rest);
    assert "" + pre + JsonFence + rest == text;
    NoClosingTicks(pre, rest);
    assert FencedBody(text).None?;
    assert text != "";
  }

  /** With no three backticks after the fence, none follow its whitespace. */
  lemma NoClosingTicks(pre: string, rest: string)
    requires !Contains(rest, Ticks)
    ensures var text := pre + JsonFence + rest;
      FindFrom(text, Ticks, BodyStart(text, |pre|)).None?
  {
    var head := pre + JsonFence;
    var text := head + rest;
    assert pre + JsonFence + rest == text;
    forall q: nat | |head| <= q
      ensures !StartsAt(text, Ticks, q)
    {
      StartsAtSuffix(head, rest, Ticks, q - |head|);
    }
  }

  lemma FencedReply(text: string, pre: string, ws: string, json: string, post: string)
    requires text == pre + JsonFence + ws + json + Ticks + post
    requires !Contains(pre + JsonFence[..|JsonFence| - 1], JsonFence)
    requires !Contains(json + Ticks[..|Ticks| - 1], Ticks)
    requires AllSpace(ws) && (json == "" || !IsSpace(json[0]))
    ensures FencedBody(text) == Some(json)
  {
    var start := |pre| + |JsonFence| + |ws|;
    FencePosition(text, pre, ws, json, post, start);
    TicksPosition(text, pre, ws, json, post, start);
    FencedBodyIs(text, |pre|, start, json);
  }

  lemma FencePosition(text: string, pre: string, ws: string, json: string, post: string, start: nat)
    requires text == pre + JsonFence + ws + json + Ticks + post
    requires start == |pre| + |JsonFence| + |ws|
    requires !Contains(pre + JsonFence[..|JsonFence| - 1], JsonFence) && AllSpace(ws)
    requires json == "" || !IsSpace(json[0])
    ensures FindFrom(text, JsonFence, 0) == Some(|pre|) && |pre| + |JsonFence| <= |text|
    ensures BodyStart(text, |pre|) == start
  {
    var rest := ws + json + Ticks + post;
    Regroup(text, pre, ws, json, post, rest);
    FenceFound(text, pre, rest);
    BodyStartIs(text, pre, rest, ws, json + Ticks + post);
  }

  lemma Regroup(text: string, pre: string, ws: string, json: string, post: string, rest: string)
    requires text == pre + JsonFence + ws + json + Ticks + post && rest == ws + json + Ticks + post
    ensures text == pre + JsonFence + rest && rest == ws + (json + Ticks + post)
  {
  }

  lemma TicksPosition(text: string, pre: string, ws: string, json: string, post: string, start: nat)
    requires text == pre + JsonFence + ws + json + Ticks + post
    requires start == |pre| + |JsonFence| + |ws| && !Contains(json + Ticks[..|Ticks| - 1], Ticks)
    ensures FindFrom(text, Ticks, start) == Some(start + |json|) && start + |json| <= |text|
    ensures text[start..start + |json|] == json
  {
    var head := pre + JsonFence + ws;
    assert text == head + json + Ticks + post;
    TicksFound(text, head, json, post);
    MiddleSlice(text, head, json, Ticks + post);
  }

  lemma FencedBodyIs(text: string, p: nat, start: nat, json: string)
    requires FindFrom(text, JsonFence, 0) == Some(p) && p + |JsonFence| <= |text|
    requires BodyStart(text, p) == start
    requires FindFrom(text, Ticks, start) == Some(start + |json|) && start + |json| <= |text|
    requires text[start..start + |json|] == json
    ensures FencedBody(text) == Some(json)
  {
    var q := start + |json|;
    var found := FindFrom(text, JsonFence, 0);
    assert found.Some? && found.value == p;
    var closing := FindFrom(text, Ticks, BodyStart(text, p));
    assert closing.Some? && closing.value == q;
    assert FencedBody(text) == Some(text[start..q]);
  }

  lemma MiddleSlice(text: string, a: string, b: string, c: string)
    requires text == a + b + c
    ensures text[|a|..|a| + |b|] == b
  {
    assert forall k :: 0 <= k < |b| ==> text[|a| + k] == b[k];
  }

  lemma BodyStartIs(text: string, pre: string, rest: string, ws: string, tail: string)
    requires text == pre + JsonFence + rest && rest == ws + tail
    requires AllSpace(ws) && (tail == "" || !IsSpace(tail[0]))
    ensures |pre| + |JsonFence| <= |text|
    ensures BodyStart(text, |pre|) == |pre| + |JsonFence| + |ws|
  {
    assert text[|pre| + |JsonFence|..] == rest;
    SkipSpace(ws, tail);
  }

  lemma FenceFound(text: string, pre: string, rest: string)
    requires text == pre + JsonFence + rest && !Contains(pre + JsonFence[..|JsonFence| - 1], JsonFence)
    ensures FindFrom(text, JsonFence, 0) == Some(|pre|)
  {
    FindAfterClear("", pre, JsonFence, rest);
    assert "" + pre + JsonFence + rest == text;
  }

  lemma SkipSpace(ws: string, t: string)
    requires AllSpace(ws) && (t == "" || !IsSpace(t[0]))
    ensures SpaceCount(ws + t) == |ws|
  {
    TrimStartSpacePrefix(ws, t);
  }

  lemma TicksFound(text: string, head: string, json: string, post: string)
    requires text == head + json + Ticks + post && !Contains(json + Ticks[..|Ticks| - 1], Ticks)
    ensures FindFrom(text, Ticks, |head|) == Some(|head| + |json|)
  {
    FindAfterClear(head, json, Ticks, post);
  }

  /** Without a ```json fence, a reply gives back the span from its first `[`
      to its last `]`. */
  lemma BracketRoundTrip(pre: string, mid: string, post: string)
    requires !Contains(pre + "[" + mid + "]" + post, JsonFence)
    requires '[' !in pre && ']' !in post
    ensures CleanJsonText(pre + "[" + mid + "]" + post) == "[" + mid + "]"
  {
    BracketSpanIs(pre, mid, post);
  }

  lemma BracketSpanIs(pre: string, mid: string, post: string)
    requires '[' !in pre && ']' !in post
    ensures BracketSpan(pre + "[" + mid + "]" + post) == Some("[" + mid + "]")
  {
    var span := "[" + mid + "]";
    assert pre + "[" + mid + "]" + post == pre + span + post;
    BracketSpanAt(pre + span + post, pre, span, post);
  }

  lemma BracketSpanAt(text: string, pre: string, span: string, post: string)
    requires text == pre + span + post && |span| >= 2 && span[0] == '[' && span[|span| - 1] == ']'
    requires '[' !in pre && ']' !in post
    ensures BracketSpan(text) == Some(span)
  {
    var a, b := |pre|, |pre| + |span| - 1;
    assert forall k :: 0 <= k < a ==> text[k] == pre[k];
    FirstIndexIs(text, '[', a);
    assert forall k :: b < k < |text| ==> text[k] == post[k - b - 1];
    LastIndexIs(text, ']', b);
    MiddleSlice(text, pre, span, post);
  }

  lemma FirstIndexIs(s: string, c: char, a: nat)
    requires a < |s| && s[a] == c && forall k :: 0 <= k < a ==> s[k] != c
    ensures FirstIndex(s, c) == Some(a)
  {
    assert s[a] in s;
  }

  lemma LastIndexIs(s: string, c: char, b: nat)
    requires b < |s| && s[b] == c && forall k :: b < k < |s| ==> s[k] != c
    ensures LastIndex(s, c) == Some(b)
  {
    assert s[b] in s;
  }

  // ---------------------------------------------------------------------------
  // Ten-page chunks
  // ---------------------------------------------------------------------------

  const ChunkSize := 10

  /** `[(i, min(i + 10, total)) for i in range(start, total, 10)]` */
  function ChunksFrom(start: nat, total: nat): (r: seq<(nat, nat)>)
    ensures forall k :: 0 <= k < |r| ==>
      r[k].0 == start + ChunkSize * k && r[k].0 < r[k].1 <= r[k].0 + ChunkSize && r[k].1 <= total
    decreases total - start
  {
    if start >= total then []
    else [(start, if start + ChunkSize < total then start + ChunkSize else total)] + ChunksFrom(start + ChunkSize, total)
  }

  function Chunks(total: nat): seq<(nat, nat)> {
    ChunksFrom(0, total)
  }

  /** The page numbers `a, a + 1, ..., b - 1`. */
  function Range(a: nat, b: nat): (r: seq<nat>)
    decreases b - a
  {
    if a >= b then [] else [a] + Range(a + 1, b)
  }

  /** The pages of the chunks, chunk after chunk. */
  function PagesOf(chunks: seq<(nat, nat)>): seq<nat> {
    if |chunks| == 0 then [] else Range(chunks[0].0, chunks[0].1) + PagesOf(chunks[1..])
  }

  lemma {:induction false} RangeSplit(a: nat, m: nat, b: nat)
    requires a <= m <= b
    ensures Range(a, b) == Range(a, m) + Range(m, b)
    decreases m - a
  {
    if a < m {
      RangeSplit(a + 1, m, b);
    }
  }

  /** The chunks cover the pages `start .. total - 1` once each, in order. */
  lemma {:induction false} ChunksCoverPages(start: nat, total: nat)
    ensures PagesOf(ChunksFrom(start, total)) == Range(start, total)
    decreases total - start
  {
    if start < total {
      var end := if start + ChunkSize < total then start + ChunkSize else total;
      ChunksCoverPages(start + ChunkSize, total);
      RangeSplit(start, end, total);
      if start + ChunkSize >= total {
        assert ChunksFrom(start + ChunkSize, total) == [];
      }
      assert ChunksFrom(start, total)[1..] == ChunksFrom(start + ChunkSize, total);
    }
  }

  /** So the chunks of a PDF partition its pages. */
  lemma ChunksPartitionPages(total: nat)
    ensures PagesOf(Chunks(total)) == Range(0, total)
  {
    ChunksCoverPages(0, total);
  }

  // ---------------------------------------------------------------------------
  // Numbering and appending the extracted questions
  // ---------------------------------------------------------------------------

  /** One question as the model returned it; `None` is a missing key. */
  datatype Extracted = Extracted(
    question: Option<string>,
    options: Option<seq<string>>,
    correct: Option<CorrectField>,
    explanation: Option<string>)

  /** The run's form fields. */
  datatype RunSettings = RunSettings(startSetId: int, category: string, tag: string, description: string)

  const QuestionsPerSet := 20

  /** The set of the `k`-th new question of the run. */
  function SetIdOf(s: RunSettings, k: nat): int {
    s.startSetId + k / QuestionsPerSet
  }

  /** The record written for an extracted question. It has no image; the
      builder reads a missing image as an empty one. */
  function Formatted(q: Extracted, setId: int, s: RunSettings, id: string): Mcq {
    Mcq(id, Some(setId), Some(s.category), Some(s.tag), Some(s.description),
        if q.question.Some? then q.question.value else "Unknown",
        "",
        if q.options.Some? then q.options.value else [],
        if q.correct.Some? then q.correct.value else CList([]),
        if q.explanation.Some? then q.explanation.value else "")
  }

  /** The records for questions `qs` when `count` questions came before them
      in the run; `idOf(k)` is the random id of the `k`-th. */
  function Numbered(qs: seq<Extracted>, count: nat, s: RunSettings, idOf: nat -> string): (r: seq<Mcq>)
    ensures |r| == |qs|
  {
    seq(|qs|, j requires 0 <= j < |qs| => Formatted(qs[j], SetIdOf(s, count + j), s, idOf(count + j)))
  }

  /** Appends the questions of one chunk one at a time, counting as it goes. */
  function AppendChunk(acc: seq<Mcq>, qs: seq<Extracted>, count: nat, s: RunSettings, idOf: nat -> string): seq<Mcq>
    decreases |qs|
  {
    if |qs| == 0 then acc
    else AppendChunk(acc + [Formatted(qs[0], SetIdOf(s, count), s, idOf(count))], qs[1..], count + 1, s, idOf)
  }

  /** Appending one question at a time is appending the numbered chunk. */
  lemma {:induction false} AppendChunkIsNumbered(acc: seq<Mcq>, qs: seq<Extracted>, count: nat, s: RunSettings, idOf: nat -> string)
    ensures AppendChunk(acc, qs, count, s, idOf) == acc + Numbered(qs, count, s, idOf)
    decreases |qs|
  {
    if |qs| > 0 {
      var first := Formatted(qs[0], SetIdOf(s, count), s, idOf(count));
      AppendChunkIsNumbered(acc + [first], qs[1..], count + 1, s, idOf);
      NumberedCons(qs, count, s, idOf);
      StableSort.Assoc(acc, [first], Numbered(qs[1..], count + 1, s, idOf));
    }
  }

  lemma NumberedCons(qs: seq<Extracted>, count: nat, s: RunSettings, idOf: nat -> string)
    requires |qs| > 0
    ensures Numbered(qs, count, s, idOf)
         == [Formatted(qs[0], SetIdOf(s, count), s, idOf(count))] + Numbered(qs[1..], count + 1, s, idOf)
  {
    var n, rest := Numbered(qs, count, s, idOf), Numbered(qs[1..], count + 1, s, idOf);
    assert forall j :: 1 <= j < |qs| ==> n[j] == rest[j - 1];
  }

  /** Numbering two runs of questions back to back is numbering them joined. */
  lemma NumberedJoin(a: seq<Extracted>, b: seq<Extracted>, count: nat, s: RunSettings, idOf: nat -> string)
    ensures Numbered(a + b, count, s, idOf) == Numbered(a, count, s, idOf) + Numbered(b, count + |a|, s, idOf)
  {
    var x, y := Numbered(a + b, count, s, idOf), Numbered(a, count, s, idOf) + Numbered(b, count + |a|, s, idOf);
    forall k | 0 <= k < |x|
      ensures x[k] == y[k]
    {
      if k < |a| {
        assert (a + b)[k] == a[k];
      } else {
        assert (a + b)[k] == b[k - |a|];
      }
    }
  }

  /** The chunk loop of `run_process`: each chunk's questions in turn, the
      running count carried across chunks. */
  function AppendChunks(acc: seq<Mcq>, chunks: seq<seq<Extracted>>, count: nat, s: RunSettings, idOf: nat -> string): seq<Mcq>
    decreases |chunks|
  {
    if |chunks| == 0 then acc
    else AppendChunks(AppendChunk(acc, chunks[0], count, s, idOf), chunks[1..], count + |chunks[0]|, s, idOf)
  }

  /** All questions of the chunks, in order. */
  function Flatten(chunks: seq<seq<Extracted>>): seq<Extracted> {
    if |chunks| == 0 then [] else chunks[0] + Flatten(chunks[1..])
  }

  /** Numbering per chunk with a carried count is numbering the whole run at
      once. */
  lemma {:induction false} ChunksAreOneRun(acc: seq<Mcq>, chunks: seq<seq<Extracted>>, count: nat, s: RunSettings, idOf: nat -> string)
    ensures AppendChunks(acc, chunks, count, s, idOf) == acc + Numbered(Flatten(chunks), count, s, idOf)
    decreases |chunks|
  {
    if |chunks| == 0 {
      assert Numbered([], count, s, idOf) == [];
    } else {
      var first := AppendChunk(acc, chunks[0], count, s, idOf);
      ChunksAreOneRun(first, chunks[1..], count + |chunks[0]|, s, idOf);
      OneRunStep(acc, chunks, count, s, idOf);
    }
  }

  lemma OneRunStep(acc: seq<Mcq>, chunks: seq<seq<Extracted>>, count: nat, s: RunSettings, idOf: nat -> string)
    requires |chunks| > 0
    requires var first := AppendChunk(acc, chunks[0], count, s, idOf);
      AppendChunks(first, chunks[1..], count + |chunks[0]|, s, idOf)
        == first + Numbered(Flatten(chunks[1..]), count + |chunks[0]|, s, idOf)
    ensures AppendChunks(acc, chunks, count, s, idOf) == acc + Numbered(Flatten(chunks), count, s, idOf)
  {
    var c, rest := chunks[0], Flatten(chunks[1..]);
    var first := AppendChunk(acc, c, count, s, idOf);
    assert AppendChunks(acc, chunks, count, s, idOf) == AppendChunks(first, chunks[1..], count + |c|, s, idOf);
    assert Flatten(chunks) == c + rest;
    AppendChunkIsNumbered(acc, c, count, s, idOf);
    NumberedJoin(c, rest, count, s, idOf);
    StableSort.Assoc(acc, Numbered(c, count, s, idOf), Numbered(rest, count + |c|, s, idOf));
  }

  /** The questions file after a run: the stored questions first, unchanged
      (a missing or unreadable file gives none), then the new ones. */
  function RunOutput(existing: Option<seq<Mcq>>, chunks: seq<seq<Extracted>>, s: RunSettings, idOf: nat -> string): (r: seq<Mcq>)
    ensures |r| == |AllMcqs(existing)| + |Flatten(chunks)|
    ensures r[..|AllMcqs(existing)|] == AllMcqs(existing)
    ensures forall k :: 0 <= k < |Flatten(chunks)| ==>
      r[|AllMcqs(existing)| + k] == Formatted(Flatten(chunks)[k], SetIdOf(s, k), s, idOf(k))
  {
    ChunksAreOneRun(AllMcqs(existing), chunks, 0, s, idOf);
    AppendChunks(AllMcqs(existing), chunks, 0, s, idOf)
  }

  /** How `run_process` ends: every chunk done and the file written with
      the new questions, or stopped in its `except` ("CRITICAL ERROR") with
      the file as it last stood; `None` there is a file that never existed. */
  datatype RunEnd = Completed(saved: seq<Mcq>) | CriticalError(left: Option<seq<Mcq>>)

  /** `run_process` with the start set number as `IntVar.get()` reads it from
      the entry, `None` when the entry holds text Tcl reads as no number and
      the call raises. The read happens at each new question, so with no
      number the run stops at the first one: the file is untouched when that
      question is in the first chunk, and holds the stored questions
      rewritten after each earlier, empty chunk otherwise. */
  function RunProcess(existing: Option<seq<Mcq>>, chunks: seq<seq<Extracted>>, start: Option<int>,
                      category: string, tag: string, description: string, idOf: nat -> string): (r: RunEnd)
    ensures r.Completed? <==> start.Some? || Flatten(chunks) == []
    ensures start.Some? ==> r == Completed(RunOutput(existing, chunks, RunSettings(start.value, category, tag, description), idOf))
    ensures start.None? && Flatten(chunks) == [] ==> r == Completed(AllMcqs(existing))
    ensures r.CriticalError? ==> |chunks| > 0
    ensures r.CriticalError? && |chunks[0]| > 0 ==> r.left == existing
    ensures r.CriticalError? && |chunks[0]| == 0 ==> r.left == Some(AllMcqs(existing))
  {
    FlattenEmpty(chunks);
    match start
    case Some(n) => Completed(RunOutput(existing, chunks, RunSettings(n, category, tag, description), idOf))
    case None =>
      if Flatten(chunks) == [] then Completed(AllMcqs(existing))
      else if |chunks[0]| > 0 then CriticalError(existing)
      else CriticalError(Some(AllMcqs(existing)))
  }

  /** No question in any chunk: the run appends nothing. */
  lemma FlattenEmpty(chunks: seq<seq<Extracted>>)
    ensures Flatten(chunks) == [] <==> forall i :: 0 <= i < |chunks| ==> chunks[i] == []
    ensures Flatten(chunks) != [] ==> |chunks| > 0
  {
    if |chunks| > 0 {
      FlattenEmpty(chunks[1..]);
      assert forall i :: 1 <= i < |chunks| ==> chunks[i] == chunks[1..][i - 1];
    }
  }

  /** The new questions take set numbers from the start number upwards
      without gaps, in non-decreasing order, at most twenty to a set. */
  lemma NewSetNumbers(existing: Option<seq<Mcq>>, chunks: seq<seq<Extracted>>, s: RunSettings, idOf: nat -> string)
    ensures var r, n := RunOutput(existing, chunks, s, idOf), |AllMcqs(existing)|;
      forall i, j :: n <= i <= j < |r| ==>
        && r[i].setId.Some? && r[j].setId.Some?
        && s.startSetId <= r[i].setId.value <= r[j].setId.value <= r[i].setId.value + 1 + (j - i) / QuestionsPerSet
        && (r[i].setId == r[j].setId ==> j - i < QuestionsPerSet)
        && (j == i + 1 ==> r[j].setId.value - r[i].setId.value <= 1)
  {
    var r, n := RunOutput(existing, chunks, s, idOf), |AllMcqs(existing)|;
    forall i, j | n <= i <= j < |r|
      ensures r[i].setId.Some? && r[j].setId.Some?
      ensures s.startSetId <= r[i].setId.value <= r[j].setId.value <= r[i].setId.value + 1 + (j - i) / QuestionsPerSet
      ensures r[i].setId == r[j].setId ==> j - i < QuestionsPerSet
      ensures j == i + 1 ==> r[j].setId.value - r[i].setId.value <= 1
    {
      NewSetIdAt(existing, chunks, s, idOf, i);
      NewSetIdAt(existing, chunks, s, idOf, j);
      SetNumbering(s, n, i, j);
    }
  }

  lemma NewSetIdAt(existing: Option<seq<Mcq>>, chunks: seq<seq<Extracted>>, s: RunSettings, idOf: nat -> string, i: nat)
    requires |AllMcqs(existing)| <= i < |RunOutput(existing, chunks, s, idOf)|
    ensures RunOutput(existing, chunks, s, idOf)[i].setId == Some(SetIdOf(s, i - |AllMcqs(existing)|))
  {
    var n := |AllMcqs(existing)|;
    assert RunOutput(existing, chunks, s, idOf)[n + (i - n)].setId == Some(SetIdOf(s, i - n));
  }

  lemma SetNumbering(s: RunSettings, n: nat, i: nat, j: nat)
    requires n <= i <= j
    ensures s.startSetId <= SetIdOf(s, i - n) <= SetIdOf(s, j - n) <= SetIdOf(s, i - n) + 1 + (j - i) / QuestionsPerSet
    ensures SetIdOf(s, i - n) == SetIdOf(s, j - n) ==> j - i < QuestionsPerSet
    ensures j == i + 1 ==> SetIdOf(s, j - n) - SetIdOf(s, i - n) <= 1
  {
  }
}
