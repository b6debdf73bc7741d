// The text side of an encounter between two residents: splitting the
// generated dialogue into lines, cleaning each line, and the timeline of
// cues (typing indicator, message bubble, history record, release of the
// reservations) that `startConversation` schedules, as (offset, cue) pairs.
module Dialogue {
  import opened Common

  const TYPING_INDICATOR_TIME: int := 1500
  const MESSAGE_DISPLAY_TIME: int := 4000
  const LINE_GAP: int := 500
  /** Time one line occupies: typing, display and the gap before the next line. */
  const LINE_SLOT: int := TYPING_INDICATOR_TIME + MESSAGE_DISPLAY_TIME + LINE_GAP
  /** Delay between the end of the last line's slot and the release of both residents. */
  const RELEASE_DELAY: int := 1000
  /** At most this many lines of a dialogue are shown. */
  const MAX_LINES: nat := 2
  /** The reservation written when an encounter starts: two slots plus 2000 ms. */
  const RESERVATION_ESTIMATE: int := LINE_SLOT * 2 + 2000

  /** The characters JavaScript's `trim()` and `\s` treat as white space. */
  predicate IsJsWhitespace(c: char)
  {
    c == ' ' || c == '\t' || c == '\n' || c == '\r' || c == '\U{000B}' || c == '\U{000C}'
    || c == '\U{00A0}' || c == '\U{1680}' || ('\U{2000}' <= c <= '\U{200A}')
    || c == '\U{2028}' || c == '\U{2029}' || c == '\U{202F}' || c == '\U{205F}'
    || c == '\U{3000}' || c == '\U{FEFF}'
  }

  /** `s.trim() === ''`. */
  predicate IsBlank(s: string)
  {
    forall k :: 0 <= k < |s| ==> IsJsWhitespace(s[k])
  }

  /** `s.split('\n')`: the pieces between newlines; an empty string gives one empty piece. */
  function SplitLines(s: string): (r: seq<string>)
    ensures |r| >= 1
    ensures forall k :: 0 <= k < |r| ==> '\n' !in r[k]
  {
    if |s| == 0 then [""]
    else
      var rest := SplitLines(s[1..]);
      if s[0] == '\n' then [""] + rest
      else [[s[0]] + rest[0]] + rest[1..]
  }

  /** `parts.join('\n')`. */
  function JoinLines(parts: seq<string>): string
  {
    if |parts| == 0 then ""
    else if |parts| == 1 then parts[0]
    else parts[0] + "\n" + JoinLines(parts[1..])
  }

  /** Joining the pieces of a split with newlines gives back the original text. */
  lemma {:induction false} JoinSplit(s: string)
    ensures JoinLines(SplitLines(s)) == s
  {
    if |s| > 0 {
      var rest := SplitLines(s[1..]);
      JoinSplit(s[1..]);
      if s[0] == '\n' {
        assert SplitLines(s) == [""] + rest;
        assert JoinLines(SplitLines(s)) == "" + "\n" + JoinLines(rest);
        assert s == [s[0]] + s[1..];
      } else {
        var r := SplitLines(s);
        assert r == [[s[0]] + rest[0]] + rest[1..];
        if |rest| == 1 {
          assert JoinLines(r) == [s[0]] + rest[0];
        } else {
          assert JoinLines(rest) == rest[0] + "\n" + JoinLines(rest[1..]);
          assert r[1..] == rest[1..];
          assert JoinLines(r) == ([s[0]] + rest[0]) + "\n" + JoinLines(rest[1..]);
        }
        assert s == [s[0]] + s[1..];
      }
    }
  }

  /** Text without a newline before other text: the text extends the first piece. */
  lemma {:induction false} SplitAfterPlainText(a: string, b: string)
    requires '\n' !in a
    ensures SplitLines(a + b) == [a + SplitLines(b)[0]] + SplitLines(b)[1..]
  {
    if |a| > 0 {
      var tail := SplitLines(b);
      SplitAfterPlainText(a[1..], b);
      assert (a + b)[0] == a[0] != '\n';
      assert (a + b)[1..] == a[1..] + b;
      var rest := SplitLines(a[1..] + b);
      assert rest == [a[1..] + tail[0]] + tail[1..];
      assert SplitLines(a + b) == [[a[0]] + rest[0]] + rest[1..];
      assert [a[0]] + (a[1..] + tail[0]) == a + tail[0];
    } else {
      var tail := SplitLines(b);
      assert a + b == b && a + tail[0] == tail[0];
      assert [tail[0]] + tail[1..] == tail;
    }
  }

  /** Splitting pieces joined with newlines gives back the pieces. */
  lemma {:induction false} SplitJoin(parts: seq<string>)
    requires |parts| >= 1
    requires forall k :: 0 <= k < |parts| ==> '\n' !in parts[k]
    ensures SplitLines(JoinLines(parts)) == parts
  {
    if |parts| == 1 {
      SplitAfterPlainText(parts[0], "");
      assert parts[0] + "" == parts[0];
    } else {
      SplitJoin(parts[1..]);
      var b := "\n" + JoinLines(parts[1..]);
      assert SplitLines(b) == [""] + SplitLines(JoinLines(parts[1..])) by {
        assert b[1..] == JoinLines(parts[1..]);
      }
      assert JoinLines(parts) == parts[0] + b;
      SplitAfterPlainText(parts[0], b);
      assert SplitLines(b)[0] == "" && SplitLines(b)[1..] == parts[1..];
      assert parts[0] + "" == parts[0];
      assert parts == [parts[0]] + parts[1..];
    }
  }

  /** `.filter((msg) => msg.trim() !== '')`: the lines that are not blank, in order. */
  function NonBlankLines(lines: seq<string>): (r: seq<string>)
    ensures |r| <= |lines|
  {
    if |lines| == 0 then []
    else (if IsBlank(lines[0]) then [] else [lines[0]]) + NonBlankLines(lines[1..])
  }

  /** The filter keeps exactly the lines that are not blank. */
  lemma {:induction false} NonBlankLinesMembers(lines: seq<string>)
    ensures forall l :: l in NonBlankLines(lines) <==> l in lines && !IsBlank(l)
  {
    if |lines| > 0 {
      NonBlankLinesMembers(lines[1..]);
      assert lines == [lines[0]] + lines[1..];
    }
  }

  /** A single line is kept exactly when it is not blank. */
  lemma NonBlankLinesSingle(l: string)
    ensures NonBlankLines([l]) == if IsBlank(l) then [] else [l]
  {
    assert [l][1..] == [];
  }

  /**
   * The filter keeps the order of the lines: filtering a concatenation is
   * filtering each part.
   */
  lemma {:induction false} NonBlankLinesConcat(a: seq<string>, b: seq<string>)
    ensures NonBlankLines(a + b) == NonBlankLines(a) + NonBlankLines(b)
  {
    if |a| == 0 {
      assert a + b == b;
    } else {
      var head := if IsBlank(a[0]) then [] else [a[0]];
      assert (a + b)[0] == a[0] && (a + b)[1..] == a[1..] + b;
      assert NonBlankLines(a + b) == head + NonBlankLines(a[1..] + b);
      NonBlankLinesConcat(a[1..], b);
      assert NonBlankLines(a) == head + NonBlankLines(a[1..]);
    }
  }

  /** The lines of a generated dialogue, as `startConversation` reads them. */
  function DialogueLines(dialogue: string): seq<string>
  {
    NonBlankLines(SplitLines(dialogue))
  }

  /** Every line of a dialogue has text and no newline. */
  lemma DialogueLinesWellFormed(dialogue: string)
    ensures forall l :: l in DialogueLines(dialogue) ==> '\n' !in l && !IsBlank(l)
  {
    NonBlankLinesMembers(SplitLines(dialogue));
  }

  /** The text without its leading white space (the `\s*` after a speaker prefix). */
  function DropLeadingWhitespace(s: string): string
  {
    if |s| > 0 && IsJsWhitespace(s[0]) then DropLeadingWhitespace(s[1..]) else s
  }

  /**
   * What is dropped is white space, and what remains is the rest of the text,
   * starting with a character that is not white space.
   */
  lemma {:induction false} DropLeadingWhitespaceSpec(s: string)
    ensures var r := DropLeadingWhitespace(s);
      && |r| <= |s| && r == s[|s| - |r|..]
      && (forall k :: 0 <= k < |s| - |r| ==> IsJsWhitespace(s[k]))
      && (|r| == 0 || !IsJsWhitespace(r[0]))
  {
    if |s| > 0 && IsJsWhitespace(s[0]) {
      DropLeadingWhitespaceSpec(s[1..]);
    }
  }

  /**
   * `.replace(new RegExp(`^${name}:\\s*`), '')`: the line without the
   * speaker's `Name:` prefix and the white space after it.
   */
  function StripSpeaker(line: string, name: string): string
  {
    var prefix := name + ":";
    if prefix <= line then DropLeadingWhitespace(line[|prefix|..]) else line
  }

  /**
   * A line without the speaker's prefix is kept whole; a line with it keeps
   * only what follows the prefix and the white space after it.
   */
  lemma StripSpeakerSpec(line: string, name: string)
    ensures var r := StripSpeaker(line, name);
      && (!(name + ":" <= line) ==> r == line)
      && (name + ":" <= line ==>
            |r| <= |line| - |name| - 1 && r == line[|line| - |r|..]
            && (forall k :: |name| + 1 <= k < |line| - |r| ==> IsJsWhitespace(line[k]))
            && (|r| == 0 || !IsJsWhitespace(r[0])))
  {
    var prefix := name + ":";
    if prefix <= line {
      var rest := line[|prefix|..];
      DropLeadingWhitespaceSpec(rest);
      var r := DropLeadingWhitespace(rest);
      assert line[|line| - |r|..] == rest[|rest| - |r|..];
      forall k | |name| + 1 <= k < |line| - |r| ensures IsJsWhitespace(line[k]) {
        assert line[k] == rest[k - |prefix|];
      }
    }
  }

  /** The speaker's prefix and the white space after it come off a line they begin. */
  lemma StripSpeakerOfPrefixed(name: string, gap: string, text: string)
    requires IsBlank(gap) && (|text| == 0 || !IsJsWhitespace(text[0]))
    ensures StripSpeaker(name + ":" + gap + text, name) == text
  {
    var line := name + ":" + gap + text;
    assert line[..|name| + 1] == name + ":";
    assert line[|name| + 1..] == gap + text;
    DropGap(gap, text);
  }

  lemma {:induction false} DropGap(gap: string, text: string)
    requires IsBlank(gap) && (|text| == 0 || !IsJsWhitespace(text[0]))
    ensures DropLeadingWhitespace(gap + text) == text
  {
    if |gap| > 0 {
      assert (gap + text)[1..] == gap[1..] + text;
      DropGap(gap[1..], text);
    } else {
      assert gap + text == text;
    }
  }

  predicate IsQuote(c: char)
  {
    c == '"' || c == '\''
  }

  /** `.replace(/^["']|["']$/g, '')`: one quote removed from each end, if there. */
  function StripQuotes(s: string): string
  {
    var t := if |s| > 0 && IsQuote(s[0]) then s[1..] else s;
    if |t| > 0 && IsQuote(t[|t| - 1]) then t[..|t| - 1] else t
  }

  /** A quoted text loses exactly its two quotes. */
  lemma StripQuotesOfQuoted(q: char, text: string, q': char)
    requires IsQuote(q) && IsQuote(q')
    ensures StripQuotes([q] + text + [q']) == text
  {
    var s := [q] + text + [q'];
    assert s[1..] == text + [q'];
    assert (text + [q'])[..|text|] == text;
  }

  /** A text that neither starts nor ends with a quote is left alone. */
  lemma StripQuotesOfUnquoted(text: string)
    requires |text| == 0 || (!IsQuote(text[0]) && !IsQuote(text[|text| - 1]))
    ensures StripQuotes(text) == text
  {
  }

  /** The text stored and shown for one line said by `speaker`. */
  function CleanLine(line: string, speaker: string): string
  {
    StripQuotes(StripSpeaker(line, speaker))
  }

  /** What happens at one point of an encounter's timeline. */
  datatype Cue =
    | ShowTyping(speaker: string)
    | HideTyping(speaker: string)
    | ShowMessage(speaker: string, text: string, isFirst: bool)
    | HideMessage(speaker: string)
    | RecordHistory(first: string, second: string)
    | Release

  /** A cue and its delay in milliseconds after the dialogue text arrived. */
  datatype Scheduled = Scheduled(offset: int, cue: Cue)

  ghost predicate Chronological(s: seq<Scheduled>)
  {
    forall a, b :: 0 <= a < b < |s| ==> s[a].offset <= s[b].offset
  }

  /** The speaker of the i-th line: the first resident, then the second. */
  function Speaker(i: nat, first: string, second: string): string
  {
    if i == 0 then first else second
  }

  /**
   * The cues of one line shown from `offset`: the typing indicator, then after
   * 1500 ms the message replacing it, hidden 4000 ms later.
   */
  function LineCues(offset: int, speaker: string, text: string, isFirst: bool): seq<Scheduled>
  {
    [ Scheduled(offset, ShowTyping(speaker)),
      Scheduled(offset + TYPING_INDICATOR_TIME, HideTyping(speaker)),
      Scheduled(offset + TYPING_INDICATOR_TIME, ShowMessage(speaker, text, isFirst)),
      Scheduled(offset + TYPING_INDICATOR_TIME + MESSAGE_DISPLAY_TIME, HideMessage(speaker)) ]
  }

  /** When the slot of line i starts: after i full slots. */
  function SlotStart(i: nat): (t: int)
    ensures t >= 0
  {
    if i == 0 then 0 else SlotStart(i - 1) + LINE_SLOT
  }

  lemma {:induction false} SlotStartIsProduct(i: nat)
    ensures SlotStart(i) == LINE_SLOT * i
  {
    if i > 0 {
      SlotStartIsProduct(i - 1);
    }
  }

  function MinLines(n: nat): (k: nat)
    ensures k <= n && k <= MAX_LINES
  {
    if n < MAX_LINES then n else MAX_LINES
  }

  /**
   * The texts shown: the first two lines at most, each cleaned of its
   * speaker's name (the first resident's for line 0, the second's after).
   */
  function ShownMessages(lines: seq<string>, first: string, second: string): (texts: seq<string>)
    ensures |texts| == MinLines(|lines|)
  {
    seq(MinLines(|lines|), i requires 0 <= i < MinLines(|lines|) => CleanLine(lines[i], Speaker(i, first, second)))
  }

  /** The cues of the first `count` texts, each in its own slot. */
  function CuesOf(texts: seq<string>, first: string, second: string, count: nat): (r: seq<Scheduled>)
    requires count <= |texts|
    ensures |r| == 4 * count
  {
    if count == 0 then []
    else
      var i := count - 1;
      CuesOf(texts, first, second, i) + LineCues(SlotStart(i), Speaker(i, first, second), texts[i], i == 0)
  }

  ghost predicate AllWithin(s: seq<Scheduled>, lo: int, hi: int)
  {
    forall k :: 0 <= k < |s| ==> lo <= s[k].offset < hi
  }

  lemma ChronologicalConcat(a: seq<Scheduled>, b: seq<Scheduled>, lo: int, mid: int, hi: int)
    requires lo <= mid <= hi
    requires Chronological(a) && Chronological(b) && AllWithin(a, lo, mid) && AllWithin(b, mid, hi)
    ensures Chronological(a + b) && AllWithin(a + b, lo, hi)
  {
    var s := a + b;
    forall x, y | 0 <= x < y < |s| ensures s[x].offset <= s[y].offset {
      if y < |a| {
        assert s[x] == a[x] && s[y] == a[y];
      } else if x >= |a| {
        assert s[x] == b[x - |a|] && s[y] == b[y - |a|];
      } else {
        assert s[x] == a[x] && s[y] == b[y - |a|];
      }
    }
  }

  /**
   * The cues of the shown texts are in chronological order, inside the slots of
   * those texts, and are all typing-indicator and message cues; the four cues
   * of line i, at positions 4i to 4i + 3, lie in that line's own slot.
   */
  lemma {:induction false} CuesInSlots(texts: seq<string>, first: string, second: string, count: nat)
    requires count <= |texts|
    ensures var r := CuesOf(texts, first, second, count);
      && Chronological(r) && AllWithin(r, 0, SlotStart(count))
      && (forall k :: 0 <= k < |r| ==> SlotStart(k / 4) <= r[k].offset < SlotStart(k / 4 + 1))
      && forall k :: 0 <= k < |r| ==>
           r[k].cue.ShowTyping? || r[k].cue.HideTyping? || r[k].cue.ShowMessage? || r[k].cue.HideMessage?
  {
    if count > 0 {
      var i := count - 1;
      var prev := CuesOf(texts, first, second, i);
      var line := LineCues(SlotStart(i), Speaker(i, first, second), texts[i], i == 0);
      var r := prev + line;
      CuesInSlots(texts, first, second, i);
      ChronologicalConcat(prev, line, 0, SlotStart(i), SlotStart(count));
      forall k | 0 <= k < |r| ensures SlotStart(k / 4) <= r[k].offset < SlotStart(k / 4 + 1) {
        if k < |prev| {
          assert r[k] == prev[k];
        } else {
          assert k / 4 == i;
          assert r[k] == line[k - |prev|];
        }
      }
    }
  }

  /** The text of line i of the shown texts, or '' when there are fewer. */
  function MessageOf(texts: seq<string>, i: nat): string
  {
    if i < |texts| then texts[i] else ""
  }

  /** The history record at the end of the last slot, only when both messages have text. */
  function HistoryCue(offset: int, m1: string, m2: string): seq<Scheduled>
  {
    if m1 != "" && m2 != "" then [Scheduled(offset, RecordHistory(m1, m2))] else []
  }

  /**
   * The timeline of an encounter whose shown texts are `texts`: their cues,
   * the history record when both messages are non-empty, and the release.
   */
  function Timeline(texts: seq<string>, first: string, second: string): seq<Scheduled>
  {
    var k := |texts|;
    CuesOf(texts, first, second, k)
    + HistoryCue(SlotStart(k), MessageOf(texts, 0), MessageOf(texts, 1))
    + [Scheduled(SlotStart(k) + RELEASE_DELAY, Release)]
  }

  lemma TimelineParts(texts: seq<string>, first: string, second: string)
    ensures Timeline(texts, first, second)
      == CuesOf(texts, first, second, |texts|)
         + HistoryCue(SlotStart(|texts|), MessageOf(texts, 0), MessageOf(texts, 1))
         + [Scheduled(SlotStart(|texts|) + RELEASE_DELAY, Release)]
  {
  }

  /** The whole timeline of an encounter once the dialogue text has arrived. */
  function ConversationSchedule(dialogue: string, first: string, second: string): seq<Scheduled>
  {
    Timeline(ShownMessages(DialogueLines(dialogue), first, second), first, second)
  }

  /**
   * `startConversation` after the dialogue text arrived: the loop over at most
   * two lines accumulates the delay of each line and schedules its cues.
   */
  method StartConversation(dialogue: string, first: string, second: string) returns (schedule: seq<Scheduled>)
    ensures schedule == ConversationSchedule(dialogue, first, second)
  {
    var messages := DialogueLines(dialogue);
    ghost var texts := ShownMessages(messages, first, second);
    var currentTimeout := 0;
    var firstMessage, secondMessage := "", "";
    schedule := [];
    var i := 0;
    while i < |messages| && i < 2
      invariant 0 <= i <= |texts|
      invariant currentTimeout == SlotStart(i)
      invariant schedule == CuesOf(texts, first, second, i)
      invariant firstMessage == if i > 0 then texts[0] else ""
      invariant secondMessage == if i > 1 then texts[1] else ""
    {
      var speaker := if i == 0 then first else second;
      var text := CleanLine(messages[i], speaker);
      assert text == texts[i];
      if i == 0 {
        firstMessage := text;
      } else {
        secondMessage := text;
      }
      schedule := schedule + LineCues(currentTimeout, speaker, text, i == 0);
      currentTimeout := currentTimeout + TYPING_INDICATOR_TIME + MESSAGE_DISPLAY_TIME + 500;
      i := i + 1;
    }
    assert i == |texts| && firstMessage == MessageOf(texts, 0) && secondMessage == MessageOf(texts, 1);
    if firstMessage != "" && secondMessage != "" {
      schedule := schedule + [Scheduled(currentTimeout, RecordHistory(firstMessage, secondMessage))];
    }
    assert schedule == CuesOf(texts, first, second, i) + HistoryCue(SlotStart(i), firstMessage, secondMessage);
    // (1500 + 4000 + 500) * min(lines, 2), i.e. the start of the slot after the last line
    var totalConversationTime := SlotStart(MinLines(|messages|));
    schedule := schedule + [Scheduled(totalConversationTime + RELEASE_DELAY, Release)];
    TimelineParts(texts, first, second);
  }

  /** The only history record of a timeline is the one written after the cues. */
  lemma OnlyHistoryRecord(cues: seq<Scheduled>, record: seq<Scheduled>, release: seq<Scheduled>, t: int, m1: string, m2: string)
    requires forall k :: 0 <= k < |cues| ==> !cues[k].cue.RecordHistory?
    requires record == HistoryCue(t, m1, m2) && |release| == 1 && release[0].cue == Release
    ensures var s := cues + record + release;
      forall j :: 0 <= j < |s| && s[j].cue.RecordHistory? ==> s[j] == Scheduled(t, RecordHistory(m1, m2))
  {
    var s := cues + record + release;
    forall j | 0 <= j < |s| && s[j].cue.RecordHistory? ensures s[j] == Scheduled(t, RecordHistory(m1, m2)) {
      if |cues| <= j < |cues| + |record| {
        assert s[j] == record[j - |cues|];
      }
    }
  }

  /**
   * A timeline is in chronological order; the history is recorded when the
   * last slot ends, and only if both texts are non-empty; the release comes
   * last, RELEASE_DELAY after the slots of the shown texts.
   */
  lemma TimelineShape(texts: seq<string>, first: string, second: string)
    ensures var s := Timeline(texts, first, second);
      && Chronological(s)
      && s[|s| - 1] == Scheduled(SlotStart(|texts|) + RELEASE_DELAY, Release)
      && (forall j :: 0 <= j < |s| - 1 ==> s[j].offset <= SlotStart(|texts|) && s[j].cue != Release)
      && ((exists j :: 0 <= j < |s| && s[j].cue.RecordHistory?) <==>
            MessageOf(texts, 0) != "" && MessageOf(texts, 1) != "")
      && (forall j :: 0 <= j < |s| && s[j].cue.RecordHistory? ==>
            s[j] == Scheduled(SlotStart(|texts|), RecordHistory(MessageOf(texts, 0), MessageOf(texts, 1))))
  {
    var k := |texts|;
    var cues := CuesOf(texts, first, second, k);
    var m1 := MessageOf(texts, 0);
    var m2 := MessageOf(texts, 1);
    var record := HistoryCue(SlotStart(k), m1, m2);
    var release := [Scheduled(SlotStart(k) + RELEASE_DELAY, Release)];
    var s := Timeline(texts, first, second);
    assert s == cues + record + release;
    CuesInSlots(texts, first, second, k);
    ChronologicalConcat(cues, record, 0, SlotStart(k), SlotStart(k) + 1);
    ChronologicalConcat(cues + record, release, 0, SlotStart(k) + 1, SlotStart(k) + RELEASE_DELAY + 1);
    OnlyHistoryRecord(cues, record, release, SlotStart(k), m1, m2);
    assert forall j :: 0 <= j < |s| - 1 ==> s[j] == (cues + record)[j];
    if m1 != "" && m2 != "" {
      assert s[|cues|].cue.RecordHistory?;
    } else {
      assert s == cues + release;
      assert forall j :: 0 <= j < |cues| ==> s[j] == cues[j];
    }
  }

  /**
   * The release of an encounter comes 6000·min(n, 2) + 1000 ms after the
   * dialogue text arrived, n being the number of dialogue lines, so at most
   * 13000 ms after it. The timers count from the arrival of the text, while
   * the reservation written when the encounter starts counts from the tick.
   */
  lemma ReleaseTime(dialogue: string, first: string, second: string)
    ensures var s := ConversationSchedule(dialogue, first, second);
      s[|s| - 1] == Scheduled(SlotStart(MinLines(|DialogueLines(dialogue)|)) + RELEASE_DELAY, Release)
      && s[|s| - 1].offset == LINE_SLOT * MinLines(|DialogueLines(dialogue)|) + RELEASE_DELAY
      && s[|s| - 1].offset <= SlotStart(MAX_LINES) + RELEASE_DELAY
  {
    var texts := ShownMessages(DialogueLines(dialogue), first, second);
    TimelineShape(texts, first, second);
    SlotStartIsProduct(MinLines(|DialogueLines(dialogue)|));
    SlotStartIsProduct(MAX_LINES);
  }


  /** The text used when the dialogue service fails. */
  function FallbackDialogue(first: string, second: string): string
  {
    first + ": Hello " + second + "!\n" + second + ": Hey there, " + first + "!"
  }

  /** The fallback line of a speaker, cleaned: the prefix `Name: ` comes off, nothing else. */
  lemma CleanFallbackLine(name: string, text: string)
    requires |text| > 0 && !IsJsWhitespace(text[0]) && !IsQuote(text[0]) && !IsQuote(text[|text| - 1])
    ensures CleanLine(name + ": " + text, name) == text
  {
    assert name + ": " + text == name + ":" + " " + text;
    StripSpeakerOfPrefixed(name, " ", text);
    StripQuotesOfUnquoted(text);
  }

  /** A line `Name: text` has a character that is not white space, and no newline if its parts have none. */
  lemma PrefixedLineWellFormed(name: string, text: string)
    requires '\n' !in name && '\n' !in text
    ensures '\n' !in name + ": " + text && !IsBlank(name + ": " + text)
  {
    var line := name + ": " + text;
    assert line[|name|] == ':';
  }

  /** The fallback text splits into its two lines, neither of them blank. */
  lemma FallbackLines(first: string, second: string)
    requires '\n' !in first && '\n' !in second
    ensures DialogueLines(FallbackDialogue(first, second))
            == [first + ": " + ("Hello " + second + "!"), second + ": " + ("Hey there, " + first + "!")]
  {
    var t1 := "Hello " + second + "!";
    var t2 := "Hey there, " + first + "!";
    var a := first + ": " + t1;
    var b := second + ": " + t2;
    PrefixedLineWellFormed(first, t1);
    PrefixedLineWellFormed(second, t2);
    FallbackIsJoin(first, second);
    TwoLines(a, b);
  }

  lemma FallbackIsJoin(first: string, second: string)
    ensures FallbackDialogue(first, second)
            == JoinLines([first + ": " + ("Hello " + second + "!"), second + ": " + ("Hey there, " + first + "!")])
  {
  }

  /** Two lines with text and without newlines, joined, read back as those two lines. */
  lemma TwoLines(a: string, b: string)
    requires '\n' !in a && '\n' !in b && !IsBlank(a) && !IsBlank(b)
    ensures DialogueLines(JoinLines([a, b])) == [a, b]
  {
    SplitJoin([a, b]);
    assert NonBlankLines([b]) == [b] by {
      assert [b][1..] == [];
    }
    assert NonBlankLines([a, b]) == [a] + NonBlankLines([b]) by {
      assert [a, b][1..] == [b];
    }
  }

  lemma ScheduleOfTexts(dialogue: string, first: string, second: string, texts: seq<string>)
    requires ShownMessages(DialogueLines(dialogue), first, second) == texts
    ensures ConversationSchedule(dialogue, first, second) == Timeline(texts, first, second)
  {
  }

  /** Two non-empty texts are recorded together, right after their eight cues. */
  lemma TwoTextsRecorded(t1: string, t2: string, first: string, second: string)
    requires t1 != "" && t2 != ""
    ensures |Timeline([t1, t2], first, second)| == 10
    ensures Timeline([t1, t2], first, second)[8].cue == RecordHistory(t1, t2)
  {
    var s := Timeline([t1, t2], first, second);
    assert s == CuesOf([t1, t2], first, second, 2) + [Scheduled(SlotStart(2), RecordHistory(t1, t2))]
                + [Scheduled(SlotStart(2) + RELEASE_DELAY, Release)];
  }

  /** `generateInteractionDialogue`: the service's text, or the fixed greeting on failure. */
  function DialogueText(reply: Option<string>, first: string, second: string): string
  {
    match reply
    case Some(text) => text
    case None => FallbackDialogue(first, second)
  }

  /**
   * When the service fails, two residents whose names hold no newline greet
   * each other: the first says "Hello <second>!", the second answers
   * "Hey there, <first>!".
   */
  lemma FallbackTexts(first: string, second: string)
    requires '\n' !in first && '\n' !in second
    ensures ShownMessages(DialogueLines(FallbackDialogue(first, second)), first, second)
            == ["Hello " + second + "!", "Hey there, " + first + "!"]
  {
    var t1 := "Hello " + second + "!";
    var t2 := "Hey there, " + first + "!";
    FallbackLines(first, second);
    CleanFallbackLine(first, t1);
    CleanFallbackLine(second, t2);
    var texts := ShownMessages([first + ": " + t1, second + ": " + t2], first, second);
    assert texts[0] == t1 && texts[1] == t2;
  }

  /**
   * When the dialogue service fails, the fallback greeting is always recorded
   * in both residents' histories.
   */
  lemma FallbackRecorded(first: string, second: string)
    requires '\n' !in first && '\n' !in second
    ensures var s := ConversationSchedule(DialogueText(None, first, second), first, second);
      exists j :: 0 <= j < |s| && s[j].cue == RecordHistory("Hello " + second + "!", "Hey there, " + first + "!")
  {
    var t1 := "Hello " + second + "!";
    var t2 := "Hey there, " + first + "!";
    FallbackTexts(first, second);
    ScheduleOfTexts(FallbackDialogue(first, second), first, second, [t1, t2]);
    TwoTextsRecorded(t1, t2, first, second);
  }
}
