/** What stripping does to the characters of a stylesheet. */
module StyleText {
  import opened StyleStripping
  import opened StyleSheet

  // ----- Every sheet -----

  /** No single quote and no line break. */
  predicate Clean(s: string) {
    forall i :: 0 <= i < |s| ==> s[i] != '\'' && s[i] != '\n' && s[i] != '\r'
  }

  lemma StepIsClean(s: string, i: nat, meta: nat, comment: nat)
    requires i < |s|
    ensures Clean(Step(s, i, meta, comment).0)
  {
  }

  lemma {:induction false} RunIsClean(f: Stepper, s: string, i: nat, meta: nat, comment: nat)
    requires Follows(f, s) && i <= |s|
    ensures Clean(Run(f, s, i, meta, comment))
    decreases |s| - i
  {
    if i < |s| {
      var r := Step(s, i, meta, comment);
      StepIsClean(s, i, meta, comment);
      RunIsClean(f, s, i + 1, r.1, r.2);
    }
  }

  /** Nothing that is output holds a single quote or a line break. */
  lemma StripIsClean(s: string)
    ensures Clean(Strip(s))
  {
    RunIsClean(StepOf(s), s, 0, 0, 0);
  }

  // ----- Text without comments and at-rules -----

  predicate IsBlank(c: char) {
    c == ' ' || c == '\n' || c == '\r'
  }

  /** Text is made up of gaps, of blanks and line breaks, and words between them. */
  datatype Stretch = Gap(text: string) | Word(text: string)

  predicate Valid(p: Stretch) {
    && p.text != []
    && forall i :: 0 <= i < |p.text| ==>
         if p.Gap? then IsBlank(p.text[i]) else !IsBlank(p.text[i]) && p.text[i] != '@' && p.text[i] != '/'
  }

  predicate Alternate(ps: seq<Stretch>) {
    || ps == []
    || (Valid(ps[0]) && (|ps| > 1 ==> ps[0].Gap? != ps[1].Gap?) && Alternate(ps[1..]))
  }

  function TextOf(ps: seq<Stretch>): string {
    if ps == [] then [] else ps[0].text + TextOf(ps[1..])
  }

  /** A gap is shown as one blank, a word as it is but for its quotes. */
  function Shown(p: Stretch): string {
    match p
    case Gap(_) => " "
    case Word(text) => seq(|text|, i requires 0 <= i < |text| => if text[i] == '\'' then '\"' else text[i])
  }

  function ShownOf(ps: seq<Stretch>): string {
    if ps == [] then [] else Shown(ps[0]) + ShownOf(ps[1..])
  }

  lemma SqueezeCons(prev: char, c: char, rest: string)
    ensures Squeeze(prev, [c] + rest) ==
            (if Norm(c) == ' ' && prev == ' ' then [] else [Norm(c)]) + Squeeze(Norm(c), rest)
  {
    assert ([c] + rest)[1..] == rest;
  }

  lemma {:induction false} SqueezeMoreGap(gap: string, rest: string)
    requires forall i :: 0 <= i < |gap| ==> IsBlank(gap[i])
    ensures Squeeze(' ', gap + rest) == Squeeze(' ', rest)
    decreases gap
  {
    if gap == [] {
      assert gap + rest == rest;
    } else {
      assert gap + rest == [gap[0]] + (gap[1..] + rest);
      SqueezeCons(' ', gap[0], gap[1..] + rest);
      SqueezeMoreGap(gap[1..], rest);
    }
  }

  lemma SqueezeGap(prev: char, p: Stretch, rest: string)
    requires Valid(p) && p.Gap? && prev != ' '
    ensures Squeeze(prev, p.text + rest) == Shown(p) + Squeeze(' ', rest)
  {
    var gap := p.text;
    assert gap + rest == [gap[0]] + (gap[1..] + rest);
    SqueezeCons(prev, gap[0], gap[1..] + rest);
    SqueezeMoreGap(gap[1..], rest);
  }

  lemma {:induction false} SqueezeWord(prev: char, p: Stretch, rest: string) returns (last: char)
    requires Valid(p) && p.Word?
    ensures last != ' ' && Squeeze(prev, p.text + rest) == Shown(p) + Squeeze(last, rest)
    decreases |p.text|
  {
    var word := p.text;
    var c, more := Norm(word[0]), word[1..];
    assert word + rest == [word[0]] + (more + rest);
    SqueezeCons(prev, word[0], more + rest);
    if more == [] {
      last := c;
      assert more + rest == rest && Shown(p) == [c];
    } else {
      last := SqueezeWord(c, Word(more), rest);
      assert Shown(p) == [c] + Shown(Word(more));
      assert [c] + (Shown(Word(more)) + Squeeze(last, rest)) == ([c] + Shown(Word(more))) + Squeeze(last, rest);
    }
  }

  lemma {:induction false} SqueezeStretches(prev: char, ps: seq<Stretch>)
    requires Alternate(ps) && (ps != [] && ps[0].Gap? ==> prev != ' ')
    ensures Squeeze(prev, TextOf(ps)) == ShownOf(ps)
    decreases ps
  {
    if ps != [] {
      if ps[0].Gap? {
        SqueezeGap(prev, ps[0], TextOf(ps[1..]));
        SqueezeStretches(' ', ps[1..]);
      } else {
        var last := SqueezeWord(prev, ps[0], TextOf(ps[1..]));
        SqueezeStretches(last, ps[1..]);
      }
    }
  }

  lemma {:induction false} NothingSpecial(ps: seq<Stretch>)
    requires Alternate(ps)
    ensures forall i :: 0 <= i < |TextOf(ps)| ==> TextOf(ps)[i] != '@' && TextOf(ps)[i] != '/'
    decreases ps
  {
    if ps != [] {
      NothingSpecial(ps[1..]);
    }
  }

  /** Text without '@' and '/' is output word for word, with one blank for every gap and single quotes
      turned into double ones. */
  lemma StripShowsText(ps: seq<Stretch>)
    requires Alternate(ps)
    ensures Strip(TextOf(ps)) == ShownOf(ps)
  {
    var s := TextOf(ps);
    var sheet := [Text(s)];
    NothingSpecial(ps);
    assert sheet[1..] == [];
    assert SourceAll(sheet) == s + [] == s;
    StripMeaning(sheet);
    SqueezeStretches('\0', ps);
    assert OutputAll('\0', sheet) == Squeeze('\0', s) + [] == Squeeze('\0', s);
  }

  /** Every such text is made up that way. */
  lemma {:induction false} EveryText(s: string) returns (ps: seq<Stretch>)
    requires forall i :: 0 <= i < |s| ==> s[i] != '@' && s[i] != '/'
    ensures Alternate(ps) && TextOf(ps) == s
    decreases s
  {
    if s == [] {
      ps := [];
    } else {
      var more := EveryText(s[1..]);
      var c := s[..1];
      var p := if IsBlank(s[0]) then Gap(c) else Word(c);
      if more != [] && more[0].Gap? == p.Gap? {
        ps := [if p.Gap? then Gap(c + more[0].text) else Word(c + more[0].text)] + more[1..];
        assert ps[1..] == more[1..];
        assert (c + more[0].text) + TextOf(more[1..]) == c + TextOf(more);
      } else {
        ps := [p] + more;
        assert ps[1..] == more;
      }
      assert c + s[1..] == s;
    }
  }
}
