/** The download-name hint of apps/web/lib/download-filename.ts, on text already in NFKC form. */
module DownloadFilename {
  import opened Wrappers

  predicate IsAlnum(c: char) {
    'A' <= c <= 'Z' || 'a' <= c <= 'z' || '0' <= c <= '9'
  }

  predicate IsEdge(c: char) {
    c == '.' || c == '_' || c == '-'
  }

  predicate IsSafe(c: char) {
    IsAlnum(c) || IsEdge(c)
  }

  // ----- the replacements of cleanPart

  /** Each maximal run of unsafe characters becomes one dash; `inRun` says that one has just been written. */
  function Dashed(s: string, inRun: bool): string {
    if s == "" then ""
    else if IsSafe(s[0]) then [s[0]] + Dashed(s[1..], false)
    else if inRun then Dashed(s[1..], true)
    else "-" + Dashed(s[1..], true)
  }

  /** Each run of dashes becomes one. */
  function Collapsed(s: string): string {
    if s == "" then ""
    else if |s| >= 2 && s[0] == '-' && s[1] == '-' then Collapsed(s[1..])
    else [s[0]] + Collapsed(s[1..])
  }

  function TrimStart(s: string): string {
    if s != "" && IsEdge(s[0]) then TrimStart(s[1..]) else s
  }

  function TrimEnd(s: string): string {
    if s != "" && IsEdge(s[|s| - 1]) then TrimEnd(s[..|s| - 1]) else s
  }

  function Trim(s: string): string {
    TrimEnd(TrimStart(s))
  }

  function Slice(s: string, maximum: nat): string {
    if |s| <= maximum then s else s[..maximum]
  }

  function CleanPart(value: string, fallback: string, maximum: nat): string {
    var cleaned := Trim(Slice(Trim(Collapsed(Dashed(value, false))), maximum));
    if cleaned == "" then fallback else cleaned
  }

  // ----- what the result must be

  predicate AllSafe(s: string) {
    forall i :: 0 <= i < |s| ==> IsSafe(s[i])
  }

  predicate DoubleAt(s: string, i: int) {
    0 <= i && i + 1 < |s| && s[i] == '-' && s[i + 1] == '-'
  }

  ghost predicate NoDouble(s: string) {
    forall i :: !DoubleAt(s, i)
  }

  predicate NoEdges(s: string) {
    s != "" ==> !IsEdge(s[0]) && !IsEdge(s[|s| - 1])
  }

  ghost predicate Clean(s: string, maximum: nat) {
    1 <= |s| <= maximum && AllSafe(s) && NoDouble(s) && NoEdges(s)
  }

  /** The letters and digits of a text, in order. */
  function Letters(s: string): string {
    if s == "" then ""
    else Letters(s[..|s| - 1]) + if IsAlnum(s[|s| - 1]) then [s[|s| - 1]] else ""
  }

  // ----- each replacement

  lemma {:induction false} LettersJoin(s: string, t: string)
    ensures Letters(s + t) == Letters(s) + Letters(t)
  {
    if t == "" {
      assert s + t == s;
    } else {
      assert (s + t)[..|s + t| - 1] == s + t[..|t| - 1];
      LettersJoin(s, t[..|t| - 1]);
    }
  }

  lemma LettersCons(s: string)
    requires s != ""
    ensures Letters(s) == (if IsAlnum(s[0]) then [s[0]] else "") + Letters(s[1..])
  {
    assert s == [s[0]] + s[1..];
    LettersJoin([s[0]], s[1..]);
  }

  lemma {:induction false} DashedIsSafe(s: string, inRun: bool)
    ensures AllSafe(Dashed(s, inRun))
    ensures Letters(Dashed(s, inRun)) == Letters(s)
    ensures AllSafe(s) ==> Dashed(s, inRun) == s
  {
    if s != "" {
      LettersCons(s);
      if IsSafe(s[0]) {
        DashedIsSafe(s[1..], false);
        LettersCons(Dashed(s, inRun));
      } else {
        DashedIsSafe(s[1..], true);
        if !inRun {
          LettersCons(Dashed(s, inRun));
        }
      }
    }
  }

  lemma {:induction false} CollapsedHasNoDouble(s: string)
    ensures NoDouble(Collapsed(s))
    ensures s != "" ==> Collapsed(s) != "" && Collapsed(s)[0] == s[0]
    ensures AllSafe(s) ==> AllSafe(Collapsed(s))
  {
    if s != "" {
      CollapsedHasNoDouble(s[1..]);
      var t := Collapsed(s);
      if !(|s| >= 2 && s[0] == '-' && s[1] == '-') {
        forall i ensures !DoubleAt(t, i) {
          if i >= 1 {
            assert !DoubleAt(t[1..], i - 1);
          }
        }
      }
    }
  }

  lemma {:induction false} CollapsedKeepsLetters(s: string)
    ensures Letters(Collapsed(s)) == Letters(s)
  {
    if s != "" {
      CollapsedKeepsLetters(s[1..]);
      LettersCons(s);
      if !(|s| >= 2 && s[0] == '-' && s[1] == '-') {
        var t := [s[0]] + Collapsed(s[1..]);
        LettersCons(t);
        assert t[1..] == Collapsed(s[1..]);
      }
    }
  }

  lemma {:induction false} CollapsedKeepsSingles(s: string)
    requires NoDouble(s)
    ensures Collapsed(s) == s
  {
    if s != "" {
      assert !DoubleAt(s, 0);
      assert s[1..] == s[1..|s|];
      PartHasNoDouble(s, 1, |s|);
      CollapsedKeepsSingles(s[1..]);
    }
  }

  lemma PartHasNoDouble(s: string, a: nat, b: nat)
    requires NoDouble(s) && a <= b <= |s|
    ensures NoDouble(s[a..b])
  {
    forall i ensures !DoubleAt(s[a..b], i) {
      assert !DoubleAt(s, a + i);
    }
  }

  predicate StartsPlain(s: string) {
    s != "" ==> !IsEdge(s[0])
  }

  lemma {:induction false} TrimStartKeepsRest(s: string)
    requires AllSafe(s) && NoDouble(s)
    ensures var t := TrimStart(s); AllSafe(t) && NoDouble(t) && StartsPlain(t) && |t| <= |s| && Letters(t) == Letters(s)
  {
    if s != "" && IsEdge(s[0]) {
      LettersCons(s);
      PartHasNoDouble(s, 1, |s|);
      assert s[1..|s|] == s[1..];
      TrimStartKeepsRest(s[1..]);
    }
  }

  lemma {:induction false} TrimEndKeepsRest(s: string)
    requires AllSafe(s) && NoDouble(s) && StartsPlain(s)
    ensures var t := TrimEnd(s); AllSafe(t) && NoDouble(t) && NoEdges(t) && |t| <= |s| && Letters(t) == Letters(s)
  {
    if s != "" && IsEdge(s[|s| - 1]) {
      PartHasNoDouble(s, 0, |s| - 1);
      assert s[0..|s| - 1] == s[..|s| - 1];
      TrimEndKeepsRest(s[..|s| - 1]);
    }
  }

  /** Trimming keeps the letters and leaves no edge character at either end. */
  lemma TrimKeepsRest(s: string)
    requires AllSafe(s) && NoDouble(s)
    ensures var t := Trim(s); AllSafe(t) && NoDouble(t) && NoEdges(t) && |t| <= |s| && Letters(t) == Letters(s)
  {
    TrimStartKeepsRest(s);
    TrimEndKeepsRest(TrimStart(s));
  }

  lemma TrimEndKeeps(s: string)
    requires NoEdges(s)
    ensures TrimEnd(s) == s
  {
  }

  lemma TrimKeeps(s: string)
    requires NoEdges(s)
    ensures Trim(s) == s
  {
  }

  lemma {:induction false} LettersOfPrefix(s: string, n: nat)
    requires n <= |s|
    ensures Letters(s[..n]) <= Letters(s)
  {
    if n < |s| {
      LettersOfPrefix(s[..|s| - 1], n);
      assert s[..|s| - 1][..n] == s[..n];
    } else {
      assert s[..n] == s;
    }
  }

  lemma {:induction false} NoLettersNoEdgesIsEmpty(s: string)
    requires NoEdges(s) && AllSafe(s)
    ensures Letters(s) == "" <==> s == ""
  {
    if s != "" {
      assert IsSafe(s[0]);
      LettersCons(s);
    }
  }

  // ----- cleanPart

  /** Everything before the last trim. */
  lemma MiddleOf(value: string) returns (middle: string)
    ensures middle == Trim(Collapsed(Dashed(value, false)))
    ensures AllSafe(middle) && NoDouble(middle) && NoEdges(middle) && Letters(middle) == Letters(value)
  {
    var dashed := Dashed(value, false);
    DashedIsSafe(value, false);
    CollapsedHasNoDouble(dashed);
    CollapsedKeepsLetters(dashed);
    TrimKeepsRest(Collapsed(dashed));
    middle := Trim(Collapsed(dashed));
  }

  /**
   The cleaned text is clean, made of the first letters and digits of the value in their order, and it is
   empty, so that the fallback is taken, exactly when the value has no letter or digit.
   */
  lemma CleanPartMeaning(value: string, fallback: string, maximum: nat)
    requires maximum >= 1
    ensures Letters(value) == "" ==> CleanPart(value, fallback, maximum) == fallback
    ensures Letters(value) != "" ==>
              var part := CleanPart(value, fallback, maximum);
              Clean(part, maximum) && part != "" && Letters(part) <= Letters(value)
  {
    var middle := MiddleOf(value);
    var sliced := Slice(middle, maximum);
    NoLettersNoEdgesIsEmpty(middle);
    PartHasNoDouble(middle, 0, |sliced|);
    LettersOfPrefix(middle, |sliced|);
    assert sliced == middle[0..|sliced|] == middle[..|sliced|];
    TrimKeepsRest(sliced);
    if middle != "" {
      LettersCons(sliced);
    }
  }

  /** Clean texts are exactly the ones left as they are. */
  lemma CleanIffFixed(value: string, fallback: string, maximum: nat)
    requires maximum >= 1 && Clean(fallback, maximum)
    ensures CleanPart(value, fallback, maximum) == value <==> Clean(value, maximum)
  {
    CleanPartMeaning(value, fallback, maximum);
    if Clean(value, maximum) {
      DashedIsSafe(value, false);
      CollapsedKeepsSingles(value);
      TrimKeeps(value);
    }
  }

  lemma CleaningTwiceIsOnce(value: string, fallback: string, maximum: nat)
    requires maximum >= 1 && Clean(fallback, maximum)
    ensures Clean(CleanPart(value, fallback, maximum), maximum)
    ensures CleanPart(CleanPart(value, fallback, maximum), fallback, maximum) == CleanPart(value, fallback, maximum)
  {
    CleanPartMeaning(value, fallback, maximum);
    CleanIffFixed(CleanPart(value, fallback, maximum), fallback, maximum);
  }

  // ----- what is kept

  lemma {:induction false} DashedAfterSafe(s: string, rest: string, inRun: bool)
    requires AllSafe(s) && s != ""
    ensures Dashed(s + rest, inRun) == s + Dashed(rest, false)
  {
    assert (s + rest)[1..] == s[1..] + rest;
    if |s| > 1 {
      DashedAfterSafe(s[1..], rest, false);
    } else {
      assert s[1..] + rest == rest;
    }
  }

  predicate NoneSafe(s: string) {
    forall i :: 0 <= i < |s| ==> !IsSafe(s[i])
  }

  lemma {:induction false} DashedRun(run: string, s: string, inRun: bool)
    requires NoneSafe(run) && run != "" && AllSafe(s) && s != ""
    ensures Dashed(run + s, inRun) == (if inRun then "" else "-") + s
  {
    assert (run + s)[1..] == run[1..] + s;
    if |run| > 1 {
      DashedRun(run[1..], s, true);
    } else {
      assert run[1..] + s == s;
      DashedIsSafe(s, true);
    }
  }

  /** Whatever stands between two clean texts becomes one dash between them. */
  lemma RunBecomesDash(s: string, run: string, t: string, m: nat, n: nat, fallback: string, maximum: nat)
    requires Clean(s, m) && Clean(t, n) && NoneSafe(run) && run != ""
    requires m + 1 + n <= maximum && Clean(fallback, maximum)
    ensures CleanPart(s + run + t, fallback, maximum) == s + "-" + t
  {
    DashedAfterSafe(s, run + t, false);
    DashedRun(run, t, false);
    assert s + run + t == s + (run + t) && s + ("-" + t) == Join(s, t);
    CleanJoin(s, t, m, n);
    CleanWithin(Join(s, t), m + 1 + n, maximum);
    CleanIffFixed(Join(s, t), fallback, maximum);
    DashedIsSafe(Join(s, t), false);
  }

  lemma {:induction false} TrimEndCuts(s: string)
    ensures var t := TrimEnd(s); t <= s && forall i :: |t| <= i < |s| ==> IsEdge(s[i])
  {
    if s != "" && IsEdge(s[|s| - 1]) {
      TrimEndCuts(s[..|s| - 1]);
    }
  }

  /** A text that is too long is cut at the maximum, and then only of the edge characters it is left to end with. */
  lemma CutAtMaximum(value: string, fallback: string, maximum: nat)
    requires maximum >= 1 && Letters(value) != ""
    ensures var whole, part := Trim(Collapsed(Dashed(value, false))), CleanPart(value, fallback, maximum);
            && AllSafe(whole) && NoDouble(whole) && NoEdges(whole) && Letters(whole) == Letters(value)
            && part <= whole
            && (|whole| <= maximum ==> part == whole)
            && (maximum < |whole| ==> forall i :: |part| <= i < maximum ==> IsEdge(whole[i]))
  {
    var whole := MiddleOf(value);
    NoLettersNoEdgesIsEmpty(whole);
    var sliced := Slice(whole, maximum);
    assert sliced != "" && !IsEdge(sliced[0]);
    TrimEndCuts(sliced);
    CleanPartMeaning(value, fallback, maximum);
  }

  // ----- the suggested name

  const MAX_FILENAME_LENGTH: nat := 120

  const SAFE_CONTAINER_EXTENSIONS: set<string> := {"mp4", "webm", "m4a", "mp3"}

  datatype Platform = X | Instagram | Facebook | Other(name: string)

  /** What the file name needs of a task; `matched` is the id its URL pattern finds, if any. */
  datatype Task = Task(platform: Platform, matched: Option<string>, id: string)

  datatype Format = Format(container: string, quality: string, hasVideo: bool)

  function LastEight(s: string): string {
    if |s| <= 8 then s else s[|s| - 8..]
  }

  function WithoutPrefix(id: string): string {
    if "tsk_" <= id then id[4..] else id
  }

  function SourceIdFor(task: Task): string {
    if task.platform.Other? || task.matched.None? || task.matched.value == ""
    then CleanPart(LastEight(WithoutPrefix(task.id)), "media", 16)
    else CleanPart(task.matched.value, "media", 48)
  }

  /** `toLowerCase().replace(/[^a-z0-9]/g, "")` on ASCII letters and digits. */
  function Normalized(s: string): string {
    if s == "" then ""
    else
      var c := if 'A' <= s[0] <= 'Z' then s[0] - 'A' + 'a' else s[0];
      (if 'a' <= c <= 'z' || '0' <= c <= '9' then [c] else "") + Normalized(s[1..])
  }

  function ExtensionFor(format: Format): string {
    if Normalized(format.container) in SAFE_CONTAINER_EXTENSIONS then Normalized(format.container)
    else if format.hasVideo then "mp4"
    else "mp3"
  }

  function PlatformPart(platform: Platform): string {
    match platform
    case X => "X"
    case Instagram => "Instagram"
    case Facebook => "Facebook"
    case Other(name) => CleanPart(name, "Media", 24)
  }

  const BRAND := "TikDD"

  function Join(s: string, t: string): string {
    s + "-" + t
  }

  function Base(task: Task, format: Format): string {
    Join(Join(Join(BRAND, PlatformPart(task.platform)), SourceIdFor(task)), CleanPart(format.quality, "Original", 24))
  }

  function SuggestedDownloadFilename(task: Task, format: Format): string {
    var extension := ExtensionFor(format);
    var room := MAX_FILENAME_LENGTH - |extension| - 1;
    TrimEnd(Slice(Base(task, format), if room < 1 then 1 else room)) + "." + extension
  }

  lemma CleanJoin(s: string, t: string, m: nat, n: nat)
    requires Clean(s, m) && Clean(t, n)
    ensures Clean(Join(s, t), m + 1 + n)
  {
    var joined := Join(s, t);
    forall i ensures !DoubleAt(joined, i) {
      if 0 <= i && i + 1 < |joined| {
        if i + 1 < |s| {
          assert !DoubleAt(s, i);
        } else if i > |s| {
          assert !DoubleAt(t, i - |s| - 1);
        }
      }
    }
  }

  lemma FallbacksAreClean()
    ensures Clean(BRAND, 5) && Clean("media", 16) && Clean("Media", 24) && Clean("Original", 24)
  {
  }

  lemma CleanWithin(s: string, m: nat, n: nat)
    requires Clean(s, m) && m <= n
    ensures Clean(s, n)
  {
  }

  lemma PlatformIsClean(platform: Platform)
    ensures Clean(PlatformPart(platform), 24)
  {
    if platform.Other? {
      FallbacksAreClean();
      CleaningTwiceIsOnce(platform.name, "Media", 24);
    }
  }

  lemma SourceIsClean(task: Task)
    ensures Clean(SourceIdFor(task), 48)
  {
    FallbacksAreClean();
    CleanWithin("media", 16, 48);
    if task.matched.Some? {
      CleaningTwiceIsOnce(task.matched.value, "media", 48);
    }
    var id := LastEight(WithoutPrefix(task.id));
    CleaningTwiceIsOnce(id, "media", 16);
    CleanWithin(CleanPart(id, "media", 16), 16, 48);
  }

  lemma QualityIsClean(format: Format)
    ensures Clean(CleanPart(format.quality, "Original", 24), 24)
  {
    FallbacksAreClean();
    CleaningTwiceIsOnce(format.quality, "Original", 24);
  }

  /** The parts are clean, so the base name is, and it has at most 104 characters. */
  lemma BaseIsClean(task: Task, format: Format)
    ensures Clean(Base(task, format), 104)
  {
    FallbacksAreClean();
    PlatformIsClean(task.platform);
    SourceIsClean(task);
    QualityIsClean(format);
    var one := Join(BRAND, PlatformPart(task.platform));
    var two := Join(one, SourceIdFor(task));
    CleanJoin(BRAND, PlatformPart(task.platform), 5, 24);
    CleanJoin(one, SourceIdFor(task), 30, 48);
    CleanJoin(two, CleanPart(format.quality, "Original", 24), 79, 24);
  }

  lemma ExtensionIsSafe(format: Format)
    ensures var extension := ExtensionFor(format);
            extension in SAFE_CONTAINER_EXTENSIONS && 3 <= |extension| <= 4 && forall c :: c in extension ==> IsAlnum(c)
  {
  }

  lemma WithExtension(base: string, extension: string, m: nat)
    requires Clean(base, m) && extension != "" && forall c :: c in extension ==> IsAlnum(c)
    ensures var name := base + "." + extension; AllSafe(name) && NoDouble(name) && NoEdges(name)
  {
    var name := base + "." + extension;
    assert forall i :: |base| < i < |name| ==> name[i] in extension;
    forall i ensures !DoubleAt(name, i) {
      assert !DoubleAt(base, i);
    }
  }

  /**
   For every task and format the name is the whole clean base with an allowlisted extension: the final
   truncation and trim never change it, and it has at most 109 of the 120 characters allowed.
   */
  lemma FilenameIsSafe(task: Task, format: Format)
    ensures var name := SuggestedDownloadFilename(task, format);
            && name == Base(task, format) + "." + ExtensionFor(format)
            && ExtensionFor(format) in SAFE_CONTAINER_EXTENSIONS
            && |name| <= 109 <= MAX_FILENAME_LENGTH
            && AllSafe(name) && NoDouble(name) && NoEdges(name)
  {
    BaseIsClean(task, format);
    ExtensionIsSafe(format);
    WithExtension(Base(task, format), ExtensionFor(format), 104);
    TrimEndKeeps(Base(task, format));
  }

  function Lower(s: string): string {
    seq(|s|, i requires 0 <= i < |s| => if 'A' <= s[i] <= 'Z' then s[i] - 'A' + 'a' else s[i])
  }

  lemma LowerJoin(s: string, t: string)
    ensures Lower(s + t) == Lower(s) + Lower(t)
  {
  }

  /** The container counts by its letters and digits alone, in lower case. */
  lemma {:induction false} NormalizedIsLetters(s: string)
    ensures Normalized(s) == Lower(Letters(s))
  {
    if s != "" {
      NormalizedIsLetters(s[1..]);
      LettersCons(s);
      LowerJoin(if IsAlnum(s[0]) then [s[0]] else "", Letters(s[1..]));
    }
  }

  /** The extension is the container where that is one of four, and otherwise tells video from sound. */
  lemma ExtensionMeaning(format: Format)
    ensures var container, extension := Lower(Letters(format.container)), ExtensionFor(format);
            && (container in {"mp4", "webm", "m4a", "mp3"} ==> extension == container)
            && (container !in {"mp4", "webm", "m4a", "mp3"} ==> extension == if format.hasVideo then "mp4" else "mp3")
  {
    NormalizedIsLetters(format.container);
  }

  predicate AllAlnum(s: string) {
    forall i :: 0 <= i < |s| ==> IsAlnum(s[i])
  }

  lemma AlnumIsClean(s: string, maximum: nat)
    requires AllAlnum(s) && 1 <= |s| <= maximum
    ensures Clean(s, maximum)
  {
  }

  /** Without a match the source part is the end of the task id, eight characters of it and never the prefix. */
  lemma IdEndIsKept(task: Task, head: string, end: string)
    requires task.platform.Other? || task.matched.None? || task.matched.value == ""
    requires task.id == head + end && AllAlnum(end)
    requires |end| == 8 || (1 <= |end| < 8 && head in {"", "tsk_"})
    ensures SourceIdFor(task) == end
  {
    var id := task.id;
    if "tsk_" <= id {
      forall k | |head| <= k < |id| ensures IsAlnum(id[k]) {
        assert id[k] == end[k - |head|];
      }
      assert id[3] == '_' && !IsAlnum('_');
      assert WithoutPrefix(id) == head[4..] + end;
    }
    var rest := WithoutPrefix(id);
    assert rest[|rest| - |end|..] == end;
    assert LastEight(rest) == end;
    FallbacksAreClean();
    AlnumIsClean(end, 16);
    CleanWithin("media", 16, 16);
    CleanIffFixed(end, "media", 16);
  }

  /** A match that is clean is kept as it is. */
  lemma MatchIsKept(task: Task)
    requires !task.platform.Other? && task.matched.Some? && Clean(task.matched.value, 48)
    ensures SourceIdFor(task) == task.matched.value
  {
    FallbacksAreClean();
    CleanWithin("media", 16, 48);
    CleanIffFixed(task.matched.value, "media", 48);
  }
}
