/** Tools/gtk/common.py: cutting the output of a child process into lines while it arrives. */
module LineSplitter {
  import opened Sequences

  const NEWLINE := '\n'

  // ----- Lines -----

  /** A line with a newline at its end and nowhere else. */
  predicate IsComplete(line: string) {
    line != [] && line[|line| - 1] == '\n' && '\n' !in line[..|line| - 1]
  }

  predicate AllComplete(lines: seq<string>) {
    forall i :: 0 <= i < |lines| ==> IsComplete(lines[i])
  }

  /** Complete lines, except that the last one may lack its newline; none is empty. */
  predicate AreLines(lines: seq<string>) {
    && (forall i :: 0 <= i < |lines| - 1 ==> IsComplete(lines[i]))
    && (lines != [] ==> var last := lines[|lines| - 1]; IsComplete(last) || (last != [] && '\n' !in last))
  }

  function Concat(ss: seq<string>): string {
    if ss == [] then [] else ss[0] + Concat(ss[1..])
  }

  /** The position of the first newline, the length when there is none. */
  function Find(s: string): (pos: nat)
    ensures pos <= |s|
  {
    if s == [] || s[0] == NEWLINE then 0 else 1 + Find(s[1..])
  }

  /** The complete lines at the start of a text, and what follows them. */
  function Complete(s: string): seq<string> {
    var pos := Find(s);
    if pos == |s| then [] else [s[..pos + 1]] + Complete(s[pos + 1..])
  }

  function Tail(s: string): string {
    var pos := Find(s);
    if pos == |s| then s else Tail(s[pos + 1..])
  }

  function Lines(s: string): seq<string> {
    Complete(s) + if Tail(s) == [] then [] else [Tail(s)]
  }

  // ----- What the lines of a text are -----

  lemma {:induction false} FindFirst(s: string)
    ensures NEWLINE !in s[..Find(s)] && (Find(s) < |s| ==> s[Find(s)] == NEWLINE)
  {
    if s != [] && s[0] != NEWLINE {
      FindFirst(s[1..]);
      assert s[..Find(s)] == [s[0]] + s[1..][..Find(s) - 1];
    }
  }

  lemma {:induction false} FindIs(a: string, b: string)
    requires NEWLINE !in a && (b == [] || b[0] == NEWLINE)
    ensures Find(a + b) == |a|
  {
    if a == [] {
      assert a + b == b;
    } else {
      FindIs(a[1..], b);
      assert (a + b)[1..] == a[1..] + b;
    }
  }

  /** A text that starts with a complete line. */
  lemma AfterLine(a: string, b: string)
    requires IsComplete(a)
    ensures Complete(a + b) == [a] + Complete(b) && Tail(a + b) == Tail(b)
  {
    var s, n := a + b, |a| - 1;
    assert s == a[..n] + ([NEWLINE] + b);
    FindIs(a[..n], [NEWLINE] + b);
    assert s[..n + 1] == a && s[n + 1..] == b;
  }

  lemma Cut(s: string) returns (a: string, b: string)
    requires Find(s) < |s|
    ensures s == a + b && IsComplete(a) && |b| < |s|
  {
    FindFirst(s);
    var n := Find(s);
    a, b := s[..n + 1], s[n + 1..];
    assert a[..n] == s[..n];
  }

  lemma NewlineFound(s: string)
    ensures NEWLINE in s <==> Find(s) < |s|
  {
    FindFirst(s);
    assert s[..|s|] == s;
  }

  lemma {:induction false} CompleteLines(s: string)
    ensures AllComplete(Complete(s)) && NEWLINE !in Tail(s)
    decreases |s|
  {
    if Find(s) == |s| {
      NewlineFound(s);
    } else {
      var a, b := Cut(s);
      CompleteLines(b);
      AfterLine(a, b);
      ConsComplete(a, Complete(b));
    }
  }

  lemma ConsComplete(a: string, more: seq<string>)
    requires IsComplete(a) && AllComplete(more)
    ensures AllComplete([a] + more)
  {
  }

  lemma {:induction false} CompleteAndTail(s: string)
    ensures Concat(Complete(s)) + Tail(s) == s
    decreases |s|
  {
    if Find(s) == |s| {
      assert [] + s == s;
    } else {
      var a, b := Cut(s);
      CompleteAndTail(b);
      AfterLine(a, b);
      ConcatCons(a, Complete(b), Tail(b));
    }
  }

  lemma ConcatCons(a: string, more: seq<string>, tail: string)
    ensures Concat([a] + more) + tail == a + (Concat(more) + tail)
  {
    assert ([a] + more)[1..] == more;
  }

  lemma {:induction false} ConcatAppend(a: seq<string>, b: seq<string>)
    ensures Concat(a + b) == Concat(a) + Concat(b)
  {
    if a == [] {
      assert a + b == b;
    } else {
      ConcatAppend(a[1..], b);
      assert (a + b)[1..] == a[1..] + b;
      Regroup(a[0], Concat(a[1..]), Concat(b));
    }
  }

  /** The lines of a text are lines, and together they are the text. */
  lemma LinesCover(s: string)
    ensures AreLines(Lines(s)) && Concat(Lines(s)) == s
  {
    CompleteLines(s);
    CompleteAndTail(s);
    if Tail(s) == [] {
      assert Lines(s) == Complete(s) && Concat(Complete(s)) + [] == s;
    } else {
      ConcatAppend(Complete(s), [Tail(s)]);
      assert Concat([Tail(s)]) == Tail(s) + [] == Tail(s);
    }
  }

  lemma FirstOfLines(lines: seq<string>)
    requires AreLines(lines) && lines != []
    ensures AreLines(lines[1..])
    ensures IsComplete(lines[0]) || (|lines| == 1 && lines[0] != [] && NEWLINE !in lines[0])
  {
    var more := lines[1..];
    assert forall i :: 0 <= i < |more| ==> more[i] == lines[i + 1];
  }

  lemma LinesAfter(a: string, b: string)
    requires IsComplete(a)
    ensures Lines(a + b) == [a] + Lines(b)
  {
    AfterLine(a, b);
  }

  /** There is only one way of cutting a text into lines. */
  lemma {:induction false} LinesUnique(lines: seq<string>)
    requires AreLines(lines)
    ensures Lines(Concat(lines)) == lines
  {
    if lines != [] {
      FirstOfLines(lines);
      if IsComplete(lines[0]) {
        LinesUnique(lines[1..]);
        LinesAfter(lines[0], Concat(lines[1..]));
        assert lines == [lines[0]] + lines[1..];
      } else {
        assert Concat(lines) == lines[0] + [] == lines[0];
        NewlineFound(lines[0]);
      }
    }
  }

  // ----- Reading in chunks -----

  /** What a sequence of reads delivers; an empty read is the end of the file. */
  function Stream(chunks: seq<string>): string {
    if chunks == [] || chunks[0] == [] then [] else chunks[0] + Stream(chunks[1..])
  }

  /** A chunk boundary does not matter: what was left over goes on with the next chunk. */
  lemma {:induction false} CompleteAppend(s: string, t: string)
    ensures Complete(s + t) == Complete(s) + Complete(Tail(s) + t) && Tail(s + t) == Tail(Tail(s) + t)
    decreases |s|
  {
    if Find(s) == |s| {
      assert [] + Complete(s + t) == Complete(s + t);
    } else {
      var a, b := Cut(s);
      assert s + t == a + (b + t);
      AfterLine(a, b);
      AfterLine(a, b + t);
      CompleteAppend(b, t);
      assert ([a] + Complete(b)) + Complete(Tail(b) + t) == [a] + (Complete(b) + Complete(Tail(b) + t));
    }
  }

  /** The inner loop: hands complete lines to the callback, whose calls are collected. */
  method DeliverLines(text: string, calls: seq<string>) returns (output: string, lines: seq<string>)
    ensures lines == calls + Complete(text) && output == Tail(text)
  {
    output, lines := text, calls;
    while NEWLINE in output
      invariant lines + Complete(output) == calls + Complete(text) && Tail(output) == Tail(text)
      decreases |output|
    {
      var pos := Find(output);
      NewlineFound(output);
      lines := lines + [output[..pos + 1]];
      output := output[pos + 1..];
    }
    NewlineFound(output);
  }

  /** The read after `k` chunks, with `seen` read so far. */
  lemma StreamTurn(seen: string, chunks: seq<string>, k: nat)
    requires k <= |chunks|
    ensures var chunk := if k < |chunks| then chunks[k] else "";
            seen + Stream(chunks[k..]) == if chunk == "" then seen else (seen + chunk) + Stream(chunks[k + 1..])
  {
    if k == |chunks| || chunks[k] == "" {
      assert seen + [] == seen;
    } else {
      assert chunks[k..][1..] == chunks[k + 1..];
      assert seen + (chunks[k] + Stream(chunks[k + 1..])) == (seen + chunks[k]) + Stream(chunks[k + 1..]);
    }
  }

  method ParseOutputLines(chunks: seq<string>) returns (lines: seq<string>)
    ensures lines == Lines(Stream(chunks))
  {
    var output, open, k := "", true, 0;
    lines := [];
    ghost var seen := "";
    assert seen + Stream(chunks[0..]) == Stream(chunks) by {
      assert chunks[0..] == chunks;
    }
    while open
      invariant 0 <= k <= |chunks|
      invariant open ==> lines == Complete(seen) && output == Tail(seen) && seen + Stream(chunks[k..]) == Stream(chunks)
      invariant !open ==> lines == Lines(Stream(chunks))
      decreases if open then 1 else 0, |chunks| - k
    {
      var chunk := if k < |chunks| then chunks[k] else "";
      StreamTurn(seen, chunks, k);
      if chunk == "" {
        open := false;
      }
      CompleteAppend(seen, chunk);
      seen := seen + chunk;
      output, lines := DeliverLines(output + chunk, lines);
      if chunk == "" && output != "" {
        lines := lines + [output];
        output := "";
      }
      k := if open then k + 1 else k;
    }
  }

  lemma {:induction false} StreamIsConcat(chunks: seq<string>)
    requires "" !in chunks
    ensures Stream(chunks) == Concat(chunks)
  {
    if chunks != [] {
      assert chunks[0] in chunks;
      StreamIsConcat(chunks[1..]);
    }
  }

  /** However a text is cut into reads, its lines are the same, they are lines, and they make up the
      text. */
  lemma ChunkIndependence(chunks: seq<string>, others: seq<string>)
    requires "" !in chunks && "" !in others && Concat(chunks) == Concat(others)
    ensures Lines(Stream(chunks)) == Lines(Stream(others))
    ensures AreLines(Lines(Stream(chunks))) && Concat(Lines(Stream(chunks))) == Concat(chunks)
  {
    StreamIsConcat(chunks);
    StreamIsConcat(others);
    LinesCover(Concat(chunks));
  }
}
