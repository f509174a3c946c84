/** The user style branch of `addons_get_element_content` in addons.c: one pass over a stylesheet
    that drops comments, `@-moz-document` wrappers and repeated spaces, driven by two counters. */
module StyleStripping {
  import opened Sequences

  // ----- The pass -----

  /** Line breaks become spaces, single quotes become double quotes. */
  function Norm(c: char): char {
    if c == '\n' || c == '\r' then ' ' else if c == '\'' then '\"' else c
  }

  /** The wrapper counter after `c`, and whether `c` is skipped at once.
      0: outside, 1: after '@', 2: in a wrapper's header, 3: inside a wrapper, 4: inside a rule. */
  function MetaStep(meta: nat, c: char): (nat, bool) {
    if meta == 0 && c == '@' then (1, false)
    else if meta == 1 && (c == '-' || c == 'n') then (2, false)
    else if meta == 2 && c == '{' then (3, true)
    else if meta == 3 && c == '{' then (4, false)
    else if meta == 4 && c == '}' then (3, false)
    else if meta == 3 && c == '}' then (0, true)
    else (meta, false)
  }

  /** The comment counter after `c`, and whether `c` is skipped at once. */
  function CommentStep(comment: nat, prev: char, c: char, next: char): (nat, bool) {
    if c == '/' && next == '*' then (comment + 1, false)
    else if comment == 2 && c == '*' && next == '/' then (1, false)
    else if comment == 1 && prev == '*' && c == '/' then (0, true)
    else (comment, false)
  }

  function Before(s: string, i: nat): char
    requires i <= |s|
  {
    if i == 0 then '\0' else Norm(s[i - 1])
  }

  function After(s: string, i: nat): char {
    if i + 1 < |s| then s[i + 1] else '\0'
  }

  /** What position `i` appends, and the counters after it. */
  function Step(s: string, i: nat, meta: nat, comment: nat): (string, nat, nat)
    requires i < |s|
  {
    var c, prev := Norm(s[i]), Before(s, i);
    var (m, skip) := MetaStep(meta, c);
    if skip then ([], m, comment)
    else
      var (k, done) := CommentStep(comment, prev, c, After(s, i));
      if done || (c == ' ' && i > 0 && prev == ' ') then ([], m, k)
      else (if (m == 0 || m >= 3) && k == 0 then [c] else [], m, k)
  }

  /** What a position does to the counters, as a value: proofs about whole runs need not look into
      `Step`. */
  type Stepper = (nat, nat, nat) -> (string, nat, nat)

  function StepOf(s: string): Stepper {
    (i: nat, meta: nat, comment: nat) => if i < |s| then Step(s, i, meta, comment) else ([], meta, comment)
  }

  ghost predicate Follows(f: Stepper, s: string) {
    forall i: nat, meta: nat, comment: nat {:trigger Step(s, i, meta, comment)} ::
      i < |s| ==> f(i, meta, comment) == Step(s, i, meta, comment)
  }

  function Run(f: Stepper, s: string, i: nat, meta: nat, comment: nat): string
    requires i <= |s|
    decreases |s| - i
  {
    if i == |s| then []
    else
      var r := f(i, meta, comment);
      r.0 + Run(f, s, i + 1, r.1, r.2)
  }

  /** The stripped stylesheet. */
  function Strip(s: string): string {
    Run(StepOf(s), s, 0, 0, 0)
  }

  // ----- The code -----

  function NormAll(s: string): string {
    seq(|s|, i requires 0 <= i < |s| => Norm(s[i]))
  }

  lemma Stepping(s: string) returns (f: Stepper, stripped: string)
    ensures Follows(f, s) && stripped == Strip(s) == Run(f, s, 0, 0, 0)
  {
    f, stripped := StepOf(s), Strip(s);
  }

  /** `content` is a NUL-terminated string, normalised in place while its stripped form is built. */
  method StripStyle(content: array<char>, n: nat) returns (chunks: string)
    requires content.Length == n + 1 && content[n] == '\0'
    modifies content
    ensures chunks == Strip(old(content[..n]))
    ensures content[..n] == NormAll(old(content[..n])) && content[n] == '\0'
    ensures forall i :: 0 <= i < n ==>
              content[i] == (match old(content[i]) case '\n' => ' ' case '\r' => ' ' case '\'' => '\"' case c => c)
  {
    ghost var s := content[..n];
    ghost var f, stripped := Stepping(s);
    var meta: nat, comment: nat, i: nat := 0, 0, 0;
    chunks := [];
    while i < n
      invariant i <= n && meta <= 4 && comment <= i
      invariant forall j :: 0 <= j < i ==> content[j] == Norm(s[j])
      invariant forall j :: i <= j < n ==> content[j] == s[j]
      invariant content[n] == '\0'
      invariant chunks + Run(f, s, i, meta, comment) == stripped
    {
      var out;
      ghost var before := chunks;
      out, meta, comment := StripAt(content, i, f, s, meta, comment);
      chunks := chunks + out;
      i := i + 1;
      Regroup(before, out, Run(f, s, i, meta, comment));
    }
    assert chunks + [] == chunks;
    assert content[..n] == NormAll(s);
  }

  /** One turn of the loop. */
  method StripAt(content: array<char>, i: nat, ghost f: Stepper, ghost s: string, meta0: nat, comment0: nat)
    returns (out: string, meta: nat, comment: nat)
    requires Follows(f, s)
    requires content.Length == |s| + 1 && i < |s| && content[|s|] == '\0' && meta0 <= 4 && comment0 <= i
    requires forall j :: 0 <= j < i ==> content[j] == Norm(s[j])
    requires forall j :: i <= j < |s| ==> content[j] == s[j]
    modifies content
    ensures content[i] == Norm(s[i]) && forall j :: 0 <= j < content.Length && j != i ==> content[j] == old(content[j])
    ensures f(i, meta0, comment0) == (out, meta, comment) && meta <= 4 && comment <= i + 1
  {
    assert f(i, meta0, comment0) == Step(s, i, meta0, comment0);
    meta, comment, out := meta0, comment0, [];
    if content[i] == '\n' || content[i] == '\r' {
      content[i] := ' ';
    }
    if content[i] == '\'' {
      content[i] := '\"';
    }
    var c := content[i];
    if meta == 0 && c == '@' {
      meta := 1;
    } else if meta == 1 && (c == '-' || c == 'n') {
      meta := 2;
    } else if meta == 2 && c == '{' {
      meta := 3;
      return;
    } else if meta == 3 && c == '{' {
      meta := 4;
    } else if meta == 4 && c == '}' {
      meta := 3;
    } else if meta == 3 && c == '}' {
      meta := 0;
      return;
    }
    if c == '/' && content[i + 1] == '*' {
      comment := comment + 1;
    } else if comment == 2 && c == '*' && content[i + 1] == '/' {
      comment := comment - 1;
    } else if comment == 1 && content[i - 1] == '*' && c == '/' {
      comment := comment - 1;
      return;
    }
    if c == ' ' && i > 0 && content[i - 1] == ' ' {
      return;
    }
    if (meta == 0 || meta >= 3) && comment == 0 {
      out := [c];
    }
  }
}
