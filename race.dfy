/** The race record (etsan/race.h): what a report says about one race, the
    message built from it once, and the order reports are kept in. */
module Races {
  import opened Text

  /** The rule that opens and closes every report: 45 `=`. */
  const Bar: string := "============================================="

  /** The escape character that starts a terminal colour sequence. */
  const Esc: char := '\U{1B}'

  /** Line `k` (0-based) of the call stack: `1 + 4k` blanks, then the arrow,
      the function name and `(...)`. */
  function FrameLine(k: nat, name: string): string
  {
    Line(Spaces(1 + 4 * k) + " '--->" + name + "(...)")
  }

  /** The call-stack text: one line per frame, in trace order. */
  function StackText(trace: seq<string>): string
  {
    if |trace| == 0 then "" else StackText(trace[..|trace| - 1]) + FrameLine(|trace| - 1, trace[|trace| - 1])
  }

  /** The same text read front to back: the frames of `trace`, the first of
      them numbered `k`. */
  function StackFrom(trace: seq<string>, k: nat): string
  {
    if |trace| == 0 then "" else FrameLine(k, trace[0]) + StackFrom(trace[1..], k + 1)
  }

  /** Splitting the frames at `j`: the second part is numbered from `k + j`. */
  lemma {:induction false} StackFromSplit(trace: seq<string>, k: nat, j: nat)
    requires j <= |trace|
    ensures StackFrom(trace, k) == StackFrom(trace[..j], k) + StackFrom(trace[j..], k + j)
    decreases j
  {
    if j > 0 {
      StackFromSplit(trace[1..], k + 1, j - 1);
      assert trace[1..][..j - 1] == trace[..j][1..];
      assert trace[1..][j - 1..] == trace[j..];
    }
  }

  /** Built back to front or front to back, the call stack is the same text:
      frame `k` is line `k`, numbered from 0. */
  lemma {:induction false} StackTextIsStackFrom(trace: seq<string>)
    ensures StackText(trace) == StackFrom(trace, 0)
  {
    if |trace| > 0 {
      var n := |trace| - 1;
      StackTextIsStackFrom(trace[..n]);
      StackFromSplit(trace, 0, n);
      assert trace[n..] == [trace[n]];
      assert trace[n..][1..] == [];
    }
  }

  /** With names free of line breaks, the call stack has exactly one line
      per frame. */
  lemma {:induction false} StackTextLines(trace: seq<string>)
    requires forall k :: 0 <= k < |trace| ==> '\n' !in trace[k]
    ensures multiset(StackText(trace))['\n'] == |trace|
  {
    if |trace| > 0 {
      var n := |trace| - 1;
      StackTextLines(trace[..n]);
      FrameLineOne(n, trace[n]);
    }
  }

  /** A frame whose name holds no line break is one line. */
  lemma FrameLineOne(k: nat, name: string)
    requires '\n' !in name
    ensures multiset(FrameLine(k, name))['\n'] == 1
  {
    var x := Spaces(1 + 4 * k) + " '--->" + name + "(...)";
    assert '\n' !in Spaces(1 + 4 * k);
    assert '\n' !in " '--->" && '\n' !in "(...)";
    assert '\n' !in x;
    OneLine(x);
  }

  /** The line naming the file, in red. */
  function FileLine(fileName: string): string
  {
    [Esc] + "[1;31m A race detected at: " + fileName + [Esc] + "[m"
  }

  /** The line giving the line number. */
  function LineNoLine(lineNo: int): string
  {
    "  At line number: " + IntText(lineNo)
  }

  /** The line naming the thread, the access kind and the object. */
  function ThreadLine(tid: nat, accessType: string, objName: string): string
  {
    "  Thread (tid=" + NatText(tid) + ") " + accessType + " \"" + objName + "\"     "
  }

  /** The seven lines ahead of the call stack: the rule, the title in
      green, the file, the line number, the thread with the access kind and
      the object, a blank line and the call-stack heading in yellow. */
  function HeaderLines(tid: nat, lineNo: int, accessType: string, objName: string, fileName: string): seq<string>
  {
    [ Bar,
      [Esc] + "[1;32mEMBEDSANITIZER Race report" + [Esc] + "[m",
      FileLine(fileName),
      LineNoLine(lineNo),
      ThreadLine(tid, accessType, objName),
      Spaces(45),
      [Esc] + "[1;33m Call stack:   " + [Esc] + "[m" + Spaces(14) ]
  }

  /** The report `createRaceMessage` appends: the header lines, the call
      stack and the closing rule. */
  function MessageText(tid: nat, lineNo: int, accessType: string, objName: string, fileName: string,
                       trace: seq<string>): string
  {
    Lines(HeaderLines(tid, lineNo, accessType, objName, fileName)) + StackText(trace) + Line(Bar)
  }

  /** Each field shows up in its own line of the header. */
  lemma FileLineMentions(fileName: string)
    ensures OccursAt(fileName, FileLine(fileName))
  {
    var red := [Esc] + "[1;31m A race detected at: ";
    OccursInMiddle(red, fileName, [Esc]);
    OccursInParts(fileName, red + fileName + [Esc], "[m");
  }

  lemma LineNoLineMentions(lineNo: int)
    ensures OccursAt(IntText(lineNo), LineNoLine(lineNo))
  {
    OccursInMiddle("", IntText(lineNo), "");
    assert "" + IntText(lineNo) + "" == IntText(lineNo);
    OccursInParts(IntText(lineNo), "  At line number: ", IntText(lineNo));
  }

  lemma ThreadLineMentions(tid: nat, accessType: string, objName: string)
    ensures var t := ThreadLine(tid, accessType, objName);
      OccursAt(NatText(tid), t) && OccursAt(accessType, t) && OccursAt(objName, t)
  {
    var pre, close, open, post := "  Thread (tid=", ") ", " \"", "\"     ";
    var n := NatText(tid);
    OccursInMiddle(pre, n, close);
    OccursInParts(n, pre + n + close, accessType);
    OccursInParts(n, pre + n + close + accessType, open);
    OccursInParts(n, pre + n + close + accessType + open, objName);
    OccursInParts(n, pre + n + close + accessType + open + objName, post);
    OccursInMiddle(pre + n + close, accessType, open);
    OccursInParts(accessType, pre + n + close + accessType + open, objName);
    OccursInParts(accessType, pre + n + close + accessType + open + objName, post);
    OccursInMiddle(pre + n + close + accessType + open, objName, post);
  }

  /** The report begins and ends with the same rule line and mentions the
      file, the line number, the thread id, the access kind and the object. */
  lemma MessageMentions(tid: nat, lineNo: int, accessType: string, objName: string, fileName: string,
                        trace: seq<string>)
    ensures var m := MessageText(tid, lineNo, accessType, objName, fileName, trace);
      && |m| >= 2 * |Line(Bar)| && m[..|Line(Bar)|] == Line(Bar) && m[|m| - |Line(Bar)|..] == Line(Bar)
      && OccursAt(fileName, m) && OccursAt(IntText(lineNo), m) && OccursAt(NatText(tid), m)
      && OccursAt(accessType, m) && OccursAt(objName, m)
  {
    var hs := HeaderLines(tid, lineNo, accessType, objName, fileName);
    var tail := StackText(trace);
    FileLineMentions(fileName);
    LineNoLineMentions(lineNo);
    ThreadLineMentions(tid, accessType, objName);
    OccursInText(fileName, hs, 2, tail, Bar);
    OccursInText(IntText(lineNo), hs, 3, tail, Bar);
    OccursInText(NatText(tid), hs, 4, tail, Bar);
    OccursInText(accessType, hs, 4, tail, Bar);
    OccursInText(objName, hs, 4, tail, Bar);
    TextFraming(hs, tail, Bar);
  }

  /** The fields `race_compare` looks at. */
  datatype RaceKey = RaceKey(fileName: string, lineNo: int, accessType: string)

  /** `race_compare` as written: the `int` results it computes for the
      same file are converted to `bool`, so `-1` and `1` both mean "less". */
  function RaceCompare(lhs: RaceKey, rhs: RaceKey): bool
  {
    if lhs.fileName == rhs.fileName then
      (if lhs.lineNo < rhs.lineNo then -1
       else if lhs.lineNo > rhs.lineNo then 1
       else if lhs.accessType == rhs.accessType then 0
       else -1) != 0
    else
      LexLess(lhs.fileName, rhs.fileName)
  }

  /** What the comparator as written decides: files by the string order,
      and within one file any difference in line or access kind counts as
      "less"; it is irreflexive. */
  lemma RaceCompareCases(lhs: RaceKey, rhs: RaceKey)
    ensures RaceCompare(lhs, rhs) <==>
      if lhs.fileName == rhs.fileName then lhs.lineNo != rhs.lineNo || lhs.accessType != rhs.accessType
      else LexLess(lhs.fileName, rhs.fileName)
    ensures !RaceCompare(lhs, lhs)
  {
  }

  /** The comparator as written is not asymmetric: two reports of one file
      on different lines (or one line with different access kinds) are each
      "less" than the other, so it is no strict weak order. */
  lemma RaceCompareNotAsymmetric()
    ensures var a, b := RaceKey("a.c", 1, "read"), RaceKey("a.c", 2, "read");
      RaceCompare(a, b) && RaceCompare(b, a)
  {
  }

  /** The order evidently intended: by file name, then line number, then
      access kind. */
  function RaceLess(lhs: RaceKey, rhs: RaceKey): bool
  {
    if lhs.fileName != rhs.fileName then LexLess(lhs.fileName, rhs.fileName)
    else if lhs.lineNo != rhs.lineNo then lhs.lineNo < rhs.lineNo
    else LexLess(lhs.accessType, rhs.accessType)
  }

  /** The intended order is a strict total order on keys, so two reports
      are equivalent under it exactly when file, line and access kind agree. */
  lemma RaceLessIsStrictOrder(a: RaceKey, b: RaceKey, c: RaceKey)
    ensures !RaceLess(a, a)
    ensures RaceLess(a, b) ==> !RaceLess(b, a)
    ensures RaceLess(a, b) && RaceLess(b, c) ==> RaceLess(a, c)
    ensures !RaceLess(a, b) && !RaceLess(b, a) <==> a == b
  {
    LexLessIrreflexive(a.fileName);
    LexLessIrreflexive(a.accessType);
    LexLessAsymmetric(a.fileName, b.fileName);
    LexLessAsymmetric(a.accessType, b.accessType);
    LexLessTotal(a.fileName, b.fileName);
    LexLessTotal(a.accessType, b.accessType);
    if RaceLess(a, b) && RaceLess(b, c) {
      if a.fileName != b.fileName && b.fileName != c.fileName {
        LexLessTransitive(a.fileName, b.fileName, c.fileName);
        LexLessIrreflexive(c.fileName);
        LexLessAsymmetric(c.fileName, b.fileName);
      } else if a.fileName == b.fileName == c.fileName && a.lineNo == b.lineNo == c.lineNo {
        LexLessTransitive(a.accessType, b.accessType, c.accessType);
      }
    }
  }

  /** Wherever the intended order says "less", the comparator as written
      says so too; across files the two agree. */
  lemma RaceLessRefinesCompare(a: RaceKey, b: RaceKey)
    ensures RaceLess(a, b) ==> RaceCompare(a, b)
    ensures a.fileName != b.fileName ==> (RaceLess(a, b) <==> RaceCompare(a, b))
  {
    LexLessIrreflexive(a.accessType);
  }

  /** One race report. */
  class Race {
    var tid: nat
    var lineNo: int
    var accessType: string
    var objName: string
    var fileName: string
    var trace: seq<string>
    var isMessageCreated: bool   // once set, the message is not built again

    /** Copies the report's fields; the call stack is empty and no message
        has been built yet. */
    constructor (tid: nat, lineNo: int, accessType: string, objName: string, fileName: string)
      ensures this.tid == tid && this.lineNo == lineNo && this.accessType == accessType
      ensures this.objName == objName && this.fileName == fileName
      ensures trace == [] && !isMessageCreated
    {
      this.tid := tid;
      this.lineNo := lineNo;
      this.accessType := accessType;
      this.objName := objName;
      this.fileName := fileName;
      trace := [];
      isMessageCreated := false;
    }

    /** The fields `race_compare` reads. */
    function Key(): RaceKey
      reads this`fileName, this`lineNo, this`accessType
    {
      RaceKey(fileName, lineNo, accessType)
    }

    /** The report built from the current fields. */
    function Message(): string
      reads this`tid, this`lineNo, this`accessType, this`objName, this`fileName, this`trace
    {
      MessageText(tid, lineNo, accessType, objName, fileName, trace)
    }

    /** `printStack`: one line per frame, the indentation growing by four
        blanks from one frame to the next. */
    method PrintStack() returns (s: string)
      ensures s == StackFrom(trace, 0)
    {
      s := "";
      var depth := 1;
      var i := 0;
      while i < |trace|
        invariant 0 <= i <= |trace| && depth == 1 + 4 * i
        invariant s == StackText(trace[..i])
      {
        assert trace[..i + 1][..i] == trace[..i];
        s := s + Line(Spaces(depth) + " '--->" + trace[i] + "(...)");
        depth := depth + 4;
        i := i + 1;
      }
      assert trace[..|trace|] == trace;
      StackTextIsStackFrom(trace);
    }

    /** `createRaceMessage`: the first call appends the report to `msg`,
        records that it did and answers false (not printed yet); every
        later call answers true and leaves `msg` as it is. */
    method CreateRaceMessage(msg: string) returns (created: bool, msg': string)
      modifies this`isMessageCreated
      ensures isMessageCreated
      ensures created == old(isMessageCreated)
      ensures msg' == if created then msg else msg + Message()
    {
      if isMessageCreated {
        return true, msg;
      }
      var stack := PrintStack();
      StackTextIsStackFrom(trace);
      var text := Lines(HeaderLines(tid, lineNo, accessType, objName, fileName)) + stack + Line(Bar);
      msg' := msg + text;
      isMessageCreated := true;
      created := false;
    }
  }
}
