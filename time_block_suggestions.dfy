/** The suggestion panel: a fixed list of proposed time blocks, from which
    accepting or rejecting a suggestion removes it. */
module TimeBlockSuggestions {
  import opened Wrappers
  import opened Text

  datatype Category = StudyCs | StudyEcon | Reading | Gym | Personal

  datatype Priority = High | Medium | Low

  /** One proposed block: `duration` in minutes, `startTime` and `endTime`
      as `HH:MM` wall-clock strings. */
  datatype TimeBlock = TimeBlock(
    id: string,
    category: Category,
    title: string,
    duration: int,
    startTime: string,
    endTime: string,
    description: string,
    priority: Priority)

  /** How many blocks carry the id. */
  function IdCount(blocks: seq<TimeBlock>, id: string): nat {
    if blocks == [] then 0 else (if blocks[0].id == id then 1 else 0) + IdCount(blocks[1..], id)
  }

  predicate UniqueIds(blocks: seq<TimeBlock>) {
    forall i, j :: 0 <= i < j < |blocks| ==> blocks[i].id != blocks[j].id
  }

  /** `suggestions.filter(s => s.id !== id)`: the blocks with another id, unchanged.
      It loses one block per occurrence of the id and returns the list itself
      when the id does not occur. */
  function Remaining(blocks: seq<TimeBlock>, id: string): (r: seq<TimeBlock>)
    ensures |r| == |blocks| - IdCount(blocks, id)
    ensures forall i :: 0 <= i < |r| ==> r[i].id != id
    ensures (forall i :: 0 <= i < |blocks| ==> blocks[i].id != id) ==> r == blocks
    decreases |blocks|
  {
    if blocks == [] then
      []
    else
      var rest := Remaining(blocks[1..], id);
      assert blocks == [blocks[0]] + blocks[1..];
      assert IdCount(blocks, id) == (if blocks[0].id == id then 1 else 0) + IdCount(blocks[1..], id);
      if blocks[0].id == id then rest else [blocks[0]] + rest
  }

  /** `rejectSuggestion(id)`: the list handed back to the page holds exactly
      the suggestions with another id. */
  function RejectSuggestion(suggestions: seq<TimeBlock>, id: string): (r: seq<TimeBlock>)
    ensures |r| == |suggestions| - IdCount(suggestions, id)
    ensures forall b :: b in r <==> b in suggestions && b.id != id
  {
    assert forall b :: b in Remaining(suggestions, id) <==> b in suggestions && b.id != id by {
      forall b
        ensures b in Remaining(suggestions, id) <==> b in suggestions && b.id != id
      {
        RemainingMembers(suggestions, id, b);
      }
    }
    Remaining(suggestions, id)
  }

  /** `acceptSuggestion(id)`: the suggestion is only dropped from the list
      (the calendar insertion it stands for is not implemented), so the page
      gets the same list as from a rejection. */
  function AcceptSuggestion(suggestions: seq<TimeBlock>, id: string): (r: seq<TimeBlock>)
    ensures r == RejectSuggestion(suggestions, id)
  {
    Remaining(suggestions, id)
  }

  /** A block is kept exactly when it was in the list and has another id. */
  lemma {:induction false} RemainingMembers(blocks: seq<TimeBlock>, id: string, b: TimeBlock)
    ensures b in Remaining(blocks, id) <==> b in blocks && b.id != id
    decreases |blocks|
  {
    if blocks != [] {
      RemainingMembers(blocks[1..], id, b);
      assert b in blocks <==> b == blocks[0] || b in blocks[1..];
    }
  }

  /** Every kept block is one of the input's, counted with multiplicity:
      the filter never duplicates or invents a block. */
  lemma {:induction false} RemainingSubMultiset(blocks: seq<TimeBlock>, id: string)
    ensures multiset(Remaining(blocks, id)) <= multiset(blocks)
    decreases |blocks|
  {
    if blocks != [] {
      RemainingSubMultiset(blocks[1..], id);
      assert blocks == [blocks[0]] + blocks[1..];
      assert multiset(blocks) == multiset([blocks[0]]) + multiset(blocks[1..]);
    }
  }

  /** Filtering distributes over concatenation, so the kept blocks stay in
      their original order. */
  lemma {:induction false} RemainingAppend(a: seq<TimeBlock>, b: seq<TimeBlock>, id: string)
    ensures Remaining(a + b, id) == Remaining(a, id) + Remaining(b, id)
    decreases |a|
  {
    if a == [] {
      assert a + b == b;
    } else {
      var t := a[1..];
      var ab := a + b;
      assert ab[0] == a[0] && ab[1..] == t + b;
      RemainingAppend(t, b, id);
    }
  }

  /** Removing an id a second time changes nothing. */
  lemma RemainingIdempotent(blocks: seq<TimeBlock>, id: string)
    ensures Remaining(Remaining(blocks, id), id) == Remaining(blocks, id)
  {
  }

  /** With unique ids, one removal drops at most one block, and exactly one
      when the id is present. */
  lemma {:induction false} UniqueIdCount(blocks: seq<TimeBlock>, id: string)
    requires UniqueIds(blocks)
    ensures IdCount(blocks, id) <= 1
    ensures IdCount(blocks, id) == 1 <==> exists i :: 0 <= i < |blocks| && blocks[i].id == id
    decreases |blocks|
  {
    if blocks != [] {
      UniqueIdCount(blocks[1..], id);
      if blocks[0].id == id {
        AbsentIdCount(blocks[1..], id);
      }
      if exists i :: 0 <= i < |blocks| && blocks[i].id == id {
        var i :| 0 <= i < |blocks| && blocks[i].id == id;
        if i > 0 {
          assert blocks[1..][i - 1].id == id;
        }
      }
    }
  }

  lemma {:induction false} AbsentIdCount(blocks: seq<TimeBlock>, id: string)
    requires forall i :: 0 <= i < |blocks| ==> blocks[i].id != id
    ensures IdCount(blocks, id) == 0
    decreases |blocks|
  {
    if blocks != [] {
      AbsentIdCount(blocks[1..], id);
    }
  }

  // ---------------------------------------------------------------------
  // The generated list

  /** The five blocks "Generate Suggestions" hands to the page. */
  function GeneratedSuggestions(): seq<TimeBlock> {
    [ TimeBlock("1", StudyCs, "Review CS 106 Algorithms", 90, "09:00", "10:30",
        "Focus on sorting algorithms and data structures", High),
      TimeBlock("2", StudyEcon, "Econ Problem Set", 60, "11:00", "12:00",
        "Complete microeconomics problem set 3", Medium),
      TimeBlock("3", Gym, "Morning Workout", 45, "07:00", "07:45",
        "Cardio and strength training", Medium),
      TimeBlock("4", Reading, "Read \"Atomic Habits\"", 30, "20:00", "20:30",
        "Chapter 5: The Best Way to Start a New Habit", Low),
      TimeBlock("5", Personal, "Personal Project Time", 60, "15:00", "16:00",
        "Work on side project or hobby", Low) ]
  }

  /** Reads an `HH:MM` wall-clock string as minutes since midnight. */
  function ClockMinutes(text: string): Option<nat> {
    var f := Split(text, ':');
    if |f| == 2 && |f[0]| == 2 && |f[1]| == 2 && AllDigits(f[0]) && AllDigits(f[1])
       && ValueOf(f[0]) < 24 && ValueOf(f[1]) < 60
    then Some(ValueOf(f[0]) * 60 + ValueOf(f[1]))
    else None
  }

  /** A block's minutes agree with its wall-clock span. */
  predicate SpanMatches(b: TimeBlock) {
    var start, end := ClockMinutes(b.startTime), ClockMinutes(b.endTime);
    start.Some? && end.Some? && start.value < end.value && b.duration == end.value - start.value
  }

  function DigitAt(text: string, k: nat): int
    requires k < |text|
  {
    text[k] as int - '0' as int
  }

  /** A two-digit numeral denotes ten times its first digit plus its second. */
  lemma TwoDigitValue(s: string)
    requires |s| == 2 && AllDigits(s)
    ensures ValueOf(s) == DigitAt(s, 0) * 10 + DigitAt(s, 1)
  {
    var p := s[..|s| - 1];
    assert p[..|p| - 1] == [] && p[0] == s[0];
    assert ValueOf(p) == DigitAt(s, 0);
  }

  /** What `ClockMinutes` reads from a five-character `HH:MM` string. */
  lemma ReadClock(text: string)
    requires |text| == 5 && text[2] == ':'
    requires IsDigit(text[0]) && IsDigit(text[1]) && IsDigit(text[3]) && IsDigit(text[4])
    requires DigitAt(text, 0) * 10 + DigitAt(text, 1) < 24 && DigitAt(text, 3) < 6
    ensures ClockMinutes(text) ==
      Some((DigitAt(text, 0) * 10 + DigitAt(text, 1)) * 60 + DigitAt(text, 3) * 10 + DigitAt(text, 4))
  {
    var hh, mm := text[..2], text[3..];
    assert text == hh + [':'] + mm;
    SplitWhole(mm, ':');
    SplitAt(hh, ':', mm);
    TwoDigitValue(hh);
    TwoDigitValue(mm);
  }

  /** A block whose `HH:MM` span reads as an interval as long as its minutes. */
  lemma BlockSpan(b: TimeBlock)
    requires |b.startTime| == 5 && b.startTime[2] == ':' && |b.endTime| == 5 && b.endTime[2] == ':'
    requires IsDigit(b.startTime[0]) && IsDigit(b.startTime[1]) && IsDigit(b.startTime[3]) && IsDigit(b.startTime[4])
    requires IsDigit(b.endTime[0]) && IsDigit(b.endTime[1]) && IsDigit(b.endTime[3]) && IsDigit(b.endTime[4])
    requires DigitAt(b.startTime, 0) * 10 + DigitAt(b.startTime, 1) < 24 && DigitAt(b.startTime, 3) < 6
    requires DigitAt(b.endTime, 0) * 10 + DigitAt(b.endTime, 1) < 24 && DigitAt(b.endTime, 3) < 6
    requires b.duration ==
      (DigitAt(b.endTime, 0) * 10 + DigitAt(b.endTime, 1)) * 60 + DigitAt(b.endTime, 3) * 10 + DigitAt(b.endTime, 4)
      - ((DigitAt(b.startTime, 0) * 10 + DigitAt(b.startTime, 1)) * 60 + DigitAt(b.startTime, 3) * 10 + DigitAt(b.startTime, 4))
    requires b.duration > 0
    ensures SpanMatches(b)
  {
    ReadClock(b.startTime);
    ReadClock(b.endTime);
  }

  /** The generated block at position `i` has id `i + 1` and a span that matches its minutes. */
  lemma GeneratedBlock(i: nat)
    requires i < 5
    ensures |GeneratedSuggestions()| == 5
    ensures |GeneratedSuggestions()[i].id| == 1 && GeneratedSuggestions()[i].id[0] as int == '1' as int + i
    ensures SpanMatches(GeneratedSuggestions()[i])
  {
    var g := GeneratedSuggestions();
    if i == 0 {
      BlockSpan(g[0]);
    } else if i == 1 {
      BlockSpan(g[1]);
    } else if i == 2 {
      BlockSpan(g[2]);
    } else if i == 3 {
      BlockSpan(g[3]);
    } else {
      BlockSpan(g[4]);
    }
  }

  /** The generated list: five blocks with ids 1 to 5, each lasting as many
      minutes as lie between its start and its end. */
  lemma GeneratedSuggestionsConsistent()
    ensures |GeneratedSuggestions()| == 5 && UniqueIds(GeneratedSuggestions())
    ensures forall i :: 0 <= i < 5 ==> GeneratedSuggestions()[i].id == [('1' as int + i) as char]
    ensures forall i :: 0 <= i < 5 ==> SpanMatches(GeneratedSuggestions()[i])
  {
    var g := GeneratedSuggestions();
    forall i | 0 <= i < 5
      ensures g[i].id == [('1' as int + i) as char] && SpanMatches(g[i])
    {
      GeneratedBlock(i);
    }
    forall i, j | 0 <= i < j < 5
      ensures g[i].id != g[j].id
    {
      assert g[i].id[0] != g[j].id[0];
    }
  }
}
