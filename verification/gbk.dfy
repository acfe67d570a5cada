/** The sequence extraction of `parse_gbk_file`
    (`GeneBankCreateBTree.java:194-211`): a state machine over the lines of
    a GenBank file. A line containing `ORIGIN` opens a block with an empty
    buffer; a line containing `//` inside a block closes it and emits the
    buffer; any other line inside a block is appended with its digits and
    white space removed, and the whole buffer is lower-cased. */
module GenBank {

  /** `haystack.contains(needle)`. */
  function Contains(haystack: seq<char>, needle: seq<char>): (r: bool)
    decreases |haystack|
  {
    if |haystack| < |needle| then false
    else haystack[..|needle|] == needle || Contains(haystack[1..], needle)
  }

  /** `needle` occurs in `haystack` at position `i`. */
  predicate OccursAt(haystack: seq<char>, needle: seq<char>, i: int)
  {
    0 <= i && i + |needle| <= |haystack| && haystack[i..i + |needle|] == needle
  }

  /** `Contains` finds exactly the places where the needle occurs. */
  lemma {:induction false} ContainsAt(haystack: seq<char>, needle: seq<char>)
    ensures Contains(haystack, needle) <==> exists i :: OccursAt(haystack, needle, i)
    decreases |haystack|
  {
    if |haystack| < |needle| {
    } else if haystack[..|needle|] == needle {
      assert OccursAt(haystack, needle, 0);
    } else {
      var tail := haystack[1..];
      ContainsAt(tail, needle);
      if Contains(tail, needle) {
        var i :| OccursAt(tail, needle, i);
        assert haystack[i + 1..i + 1 + |needle|] == tail[i..i + |needle|];
        assert OccursAt(haystack, needle, i + 1);
      }
      forall i | OccursAt(haystack, needle, i)
        ensures Contains(tail, needle)
      {
        assert i != 0;
        assert tail[i - 1..i - 1 + |needle|] == haystack[i..i + |needle|];
        assert OccursAt(tail, needle, i - 1);
      }
    }
  }

  /** A character of the class `[0-9\s]`: a decimal digit, or one of
      Java's white space characters space, tab, line feed, vertical tab,
      form feed and carriage return. */
  predicate Stripped(c: char)
  {
    '0' <= c <= '9' || c == ' ' || c == '\t' || c == '\n' || c == '\U{0B}' || c == '\U{0C}' || c == '\r'
  }

  /** `replaceAll("[0-9\\s]", "")`. */
  function Strip(line: seq<char>): (r: seq<char>)
    ensures |r| <= |line|
    ensures forall i :: 0 <= i < |r| ==> !Stripped(r[i])
  {
    if line == [] then []
    else if Stripped(line[0]) then Strip(line[1..])
    else [line[0]] + Strip(line[1..])
  }

  /** The ASCII part of `toLowerCase`. */
  function LowerChar(c: char): (r: char)
  {
    if 'A' <= c <= 'Z' then (c as int + 32) as char else c
  }

  predicate IsLower(s: seq<char>)
  {
    forall i :: 0 <= i < |s| ==> !('A' <= s[i] <= 'Z')
  }

  predicate IsClean(s: seq<char>)
  {
    forall i :: 0 <= i < |s| ==> !Stripped(s[i])
  }

  /** `toLowerCase`, on ASCII letters. */
  function Lower(s: seq<char>): (r: seq<char>)
    ensures |r| == |s| && IsLower(r)
    ensures forall i :: 0 <= i < |s| ==> r[i] == LowerChar(s[i])
  {
    seq(|s|, i requires 0 <= i < |s| => LowerChar(s[i]))
  }

  /** Lower-casing is idempotent and goes through concatenation, so
      lower-casing the whole buffer again after each line is the same as
      lower-casing each appended line once. */
  lemma LowerAppend(a: seq<char>, b: seq<char>)
    ensures IsLower(a) ==> Lower(a) == a
    ensures Lower(a + b) == Lower(a) + Lower(b)
  {
  }

  /** Lower-casing keeps a clean line clean. */
  lemma LowerClean(s: seq<char>)
    requires IsClean(s)
    ensures IsClean(Lower(s))
  {
    forall i | 0 <= i < |s|
      ensures !Stripped(Lower(s)[i])
    {
    }
  }

  /** The loop's state: inside a block or not, the buffer `seq`, and the
      list of sequences emitted so far. */
  datatype Reader = Reader(start: bool, buffer: seq<char>, seqs: seq<seq<char>>)

  function Opens(line: seq<char>): bool { Contains(line, "ORIGIN") }

  function Closes(line: seq<char>): bool { Contains(line, "//") }

  /** One pass of the loop body. */
  function Step(r: Reader, line: seq<char>): (r': Reader)
  {
    if Opens(line) then Reader(true, [], r.seqs)
    else if Closes(line) && r.start then Reader(false, r.buffer, r.seqs + [r.buffer])
    else if r.start then r.(buffer := Lower(r.buffer + Strip(line)))
    else r
  }

  /** The loop over `lines`, from the state `r`. */
  function Run(r: Reader, lines: seq<seq<char>>): (r': Reader)
    decreases |lines|
  {
    if lines == [] then r else Run(Step(r, lines[0]), lines[1..])
  }

  /** `parse_gbk_file` on the lines of a file. */
  function Parse(lines: seq<seq<char>>): (seqs: seq<seq<char>>)
  {
    Run(Reader(false, [], []), lines).seqs
  }

  /** The state the loop keeps: the buffer is lower-case and free of digits
      and white space, and so is every sequence emitted. */
  ghost predicate Tidy(r: Reader)
  {
    IsLower(r.buffer) && IsClean(r.buffer)
    && forall j :: 0 <= j < |r.seqs| ==> IsLower(r.seqs[j]) && IsClean(r.seqs[j])
  }

  /** Each step keeps the state tidy, emits at most one sequence, and never
      takes back one emitted earlier. */
  lemma StepTidy(r: Reader, line: seq<char>)
    requires Tidy(r)
    ensures Tidy(Step(r, line))
    ensures r.seqs <= Step(r, line).seqs
    ensures |Step(r, line).seqs| == |r.seqs| + (if !Opens(line) && Closes(line) && r.start then 1 else 0)
  {
    if !Opens(line) && !(Closes(line) && r.start) && r.start {
      var b := r.buffer + Strip(line);
      assert IsClean(b);
      LowerClean(b);
    }
  }

  /** Every sequence `parse_gbk_file` returns is lower-case and holds no
      digit or white space. */
  lemma {:induction false} RunTidy(r: Reader, lines: seq<seq<char>>)
    requires Tidy(r)
    ensures Tidy(Run(r, lines))
    ensures r.seqs <= Run(r, lines).seqs
    decreases |lines|
  {
    if lines != [] {
      StepTidy(r, lines[0]);
      RunTidy(Step(r, lines[0]), lines[1..]);
    }
  }

  lemma ParseTidy(lines: seq<seq<char>>)
    ensures forall j :: 0 <= j < |Parse(lines)| ==> IsLower(Parse(lines)[j]) && IsClean(Parse(lines)[j])
  {
    RunTidy(Reader(false, [], []), lines);
  }

  /** A line that neither opens nor closes a block. */
  predicate Plain(line: seq<char>)
  {
    !Opens(line) && !Closes(line)
  }

  /** The cleaned text of the lines of a block body. */
  function Body(lines: seq<seq<char>>): (r: seq<char>)
  {
    if lines == [] then [] else Strip(lines[0]) + Body(lines[1..])
  }

  /** Outside a block, lines that open no block change nothing: in
      particular a stray `//` line is ignored. */
  lemma {:induction false} RunOutside(r: Reader, lines: seq<seq<char>>)
    requires !r.start
    requires forall j :: 0 <= j < |lines| ==> !Opens(lines[j])
    ensures Run(r, lines) == r
    decreases |lines|
  {
    if lines != [] {
      RunOutside(Step(r, lines[0]), lines[1..]);
    }
  }

  /** Inside a block, plain lines append their cleaned, lower-cased text. */
  lemma {:induction false} RunInside(r: Reader, lines: seq<seq<char>>)
    requires r.start && IsLower(r.buffer)
    requires forall j :: 0 <= j < |lines| ==> Plain(lines[j])
    ensures Run(r, lines) == r.(buffer := r.buffer + Lower(Body(lines)))
    decreases |lines|
  {
    if lines != [] {
      var head, rest := Strip(lines[0]), Body(lines[1..]);
      var r1 := Step(r, lines[0]);
      assert r1 == r.(buffer := Lower(r.buffer + head));
      assert Body(lines) == head + rest;
      LowerAppend(r.buffer, head);
      LowerAppend(head, rest);
      RunInside(r1, lines[1..]);
      hide Lower, Strip, Body, Step;
      assert r1.buffer + Lower(rest) == r.buffer + Lower(Body(lines));
    }
  }

  /** A block from an `ORIGIN` line to a `//` line emits exactly one
      sequence, the lower-cased text of the lines between with digits and
      white space removed, whatever state the loop was in before. */
  lemma Block(r: Reader, open: seq<char>, body: seq<seq<char>>, close: seq<char>)
    requires Opens(open) && !Opens(close) && Closes(close)
    requires forall j :: 0 <= j < |body| ==> Plain(body[j])
    ensures Run(r, [open] + body + [close]).seqs == r.seqs + [Lower(Body(body))]
    ensures !Run(r, [open] + body + [close]).start
  {
    var r1 := Step(r, open);
    RunInside(r1, body);
    RunAppend(r1, body, [close]);
    var lines := [open] + body + [close];
    assert lines[0] == open && lines[1..] == body + [close];
    assert Run(r, lines) == Run(r1, body + [close]);
    var r2 := Run(r1, body);
    assert Run(r2, [close]) == Step(r2, close);
    assert r2.buffer == Lower(Body(body));
  }

  /** Running over two pieces of input one after the other. */
  lemma {:induction false} RunAppend(r: Reader, a: seq<seq<char>>, b: seq<seq<char>>)
    ensures Run(r, a + b) == Run(Run(r, a), b)
    decreases |a|
  {
    if a != [] {
      assert (a + b)[0] == a[0];
      assert (a + b)[1..] == a[1..] + b;
      RunAppend(Step(r, a[0]), a[1..], b);
      assert Run(r, a + b) == Run(Step(r, a[0]), a[1..] + b);
      assert Run(r, a) == Run(Step(r, a[0]), a[1..]);
    } else {
      assert a + b == b;
    }
  }
}
