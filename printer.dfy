/** `print_red` and `collins_pretty_print`: the text the program writes to
    standard output for a dictionary record. Every `sys.stdout.write` is an
    append to the output string. */
module Printer {
  import opened Records
  import opened PyStr

  /** The ANSI codes `RED_TEXT_START` (bold red) and `RED_TEXT_END` (reset). */
  const RedStart: string := "\U{1B}[1;31m"
  const RedEnd: string := "\U{1B}[0m"

  /** What `print_red(text)` writes: the text, framed by the two codes. */
  function Red(text: string): string {
    RedStart + text + RedEnd
  }

  /** The first line: the red headword, eight spaces, the phonetic. */
  function Header(r: Record): string {
    Red(r.word) + "        " + r.phonetic + "\n"
  }

  // ---------------------------------------------------------------------
  // Keyword highlighting

  /** Single-pass reference reading of the keyword highlighting: each
      `<b>` becomes the red start code and each `</b>` the reset code. */
  function Highlight(t: string): string
    decreases |t|
  {
    if t == [] then []
    else if "<b>" <= t then RedStart + Highlight(t[3..])
    else if "</b>" <= t then RedEnd + Highlight(t[4..])
    else [t[0]] + Highlight(t[1..])
  }

  /** No `<b>` and no `</b>` starts anywhere in `s`. */
  predicate Untagged(s: string) {
    forall k :: 0 <= k < |s| ==> !("<b>" <= s[k..]) && !("</b>" <= s[k..])
  }

  /** No character of `q` is `<` (where a tag starts) or ESC (where a colour
      code starts). */
  predicate Inert(q: string) {
    forall i :: 0 <= i < |q| ==> q[i] != '<' && q[i] != '\U{1B}'
  }

  /** Neither colour code holds a `<`, so no tag can start inside one. */
  lemma CodesHaveNoTagStart()
    ensures '<' !in RedStart && '<' !in RedEnd
  {
    assert RedStart == ['\U{1B}', '[', '1', ';', '3', '1', 'm'];
    assert RedEnd == ['\U{1B}', '[', '0', 'm'];
  }

  /** `[c] + q` is a prefix of `t` exactly when `t` starts with `c` and `q`
      is a prefix of the rest. */
  lemma {:induction false} PrefixStep(c: char, q: string, t: string)
    requires |t| > 0 && t[0] == c
    ensures ([c] + q <= t) <==> (q <= t[1..])
  {
    if q <= t[1..] {
      assert ([c] + q) == t[..|q| + 1];
    }
    if [c] + q <= t {
      assert q == t[1..][..|q|];
    }
  }

  /** Replacing `<b>` cannot create a prefix made of inert characters. */
  lemma {:induction false} OpenReplaceKeepsAbsentPrefix(q: string, u: string)
    requires |q| > 0 && Inert(q) && !(q <= u)
    ensures !(q <= ReplaceAll(u, "<b>", RedStart))
    decreases |u|
  {
    if u != [] && !("<b>" <= u) && u[0] == q[0] {
      PrefixStep(q[0], q[1..], u);
      assert [q[0]] + q[1..] == q;
      OpenReplaceKeepsAbsentPrefix(q[1..], u[1..]);
      PrefixStep(q[0], q[1..], ReplaceAll(u, "<b>", RedStart));
    }
  }

  /** Highlighting cannot create a prefix made of inert characters. */
  lemma {:induction false} HighlightKeepsAbsentPrefix(q: string, u: string)
    requires |q| > 0 && Inert(q) && !(q <= u)
    ensures !(q <= Highlight(u))
    decreases |u|
  {
    if u != [] && !("<b>" <= u) && !("</b>" <= u) && u[0] == q[0] {
      PrefixStep(q[0], q[1..], u);
      assert [q[0]] + q[1..] == q;
      HighlightKeepsAbsentPrefix(q[1..], u[1..]);
      PrefixStep(q[0], q[1..], Highlight(u));
    }
  }

  /** `text.replace("<b>", RED_TEXT_START).replace("</b>", RED_TEXT_END)`
      is the single-pass highlighting: the two replacements never interfere,
      because the codes contain no `<`. */
  lemma {:induction false} TwoReplacesHighlight(t: string)
    ensures ReplaceAll(ReplaceAll(t, "<b>", RedStart), "</b>", RedEnd) == Highlight(t)
    decreases |t|
  {
    CodesHaveNoTagStart();
    if t == [] {
    } else if "<b>" <= t {
      var y := ReplaceAll(t[3..], "<b>", RedStart);
      ReplaceAllSkipsPrefix(RedStart, y, "</b>", RedEnd);
      TwoReplacesHighlight(t[3..]);
    } else if "</b>" <= t {
      assert t[1..] == "/b>" + t[4..];
      ReplaceAllSkipsPrefix("/b>", t[4..], "<b>", RedStart);
      var z := ReplaceAll(t[4..], "<b>", RedStart);
      assert ReplaceAll(t, "<b>", RedStart) == "</b>" + z;
      assert ("</b>" + z)[4..] == z;
      TwoReplacesHighlight(t[4..]);
    } else {
      var y := ReplaceAll(t[1..], "<b>", RedStart);
      assert ReplaceAll(t, "<b>", RedStart) == [t[0]] + y;
      if t[0] == '<' {
        PrefixStep('<', "/b>", t);
        assert "</b>" == ['<'] + "/b>";
        OpenReplaceKeepsAbsentPrefix("/b>", t[1..]);
        PrefixStep('<', "/b>", [t[0]] + y);
        assert ([t[0]] + y)[1..] == y;
      } else {
        ReplaceAllSkipsPrefix([t[0]], y, "</b>", RedEnd);
      }
      TwoReplacesHighlight(t[1..]);
    }
  }

  /** A prefix without `<` in front of an untagged string keeps it untagged. */
  lemma {:induction false} UntaggedAfterCode(code: string, rest: string)
    requires '<' !in code
    requires Untagged(rest)
    ensures Untagged(code + rest)
  {
    var s := code + rest;
    forall k | 0 <= k < |s|
      ensures !("<b>" <= s[k..]) && !("</b>" <= s[k..])
    {
      if k < |code| {
        assert s[k..][0] == code[k];
      } else {
        assert s[k..] == rest[k - |code|..];
      }
    }
  }

  /** One character in front of an untagged string keeps it untagged,
      unless it is a `<` that completes a tag. */
  lemma {:induction false} UntaggedCons(c: char, rest: string)
    requires Untagged(rest)
    requires c == '<' ==> !("b>" <= rest) && !("/b>" <= rest)
    ensures Untagged([c] + rest)
  {
    var s := [c] + rest;
    if c == '<' {
      assert "<b>" == ['<'] + "b>" && "</b>" == ['<'] + "/b>";
      PrefixStep('<', "b>", s);
      PrefixStep('<', "/b>", s);
    }
    forall k | 0 <= k < |s|
      ensures !("<b>" <= s[k..]) && !("</b>" <= s[k..])
    {
      if k == 0 {
        assert s[k..] == s && s[0] == c;
      } else {
        assert s[k..] == rest[k - 1..];
      }
    }
  }

  /** After highlighting no `<b>` or `</b>` is left anywhere. */
  lemma {:induction false} HighlightUntagged(t: string)
    ensures Untagged(Highlight(t))
    decreases |t|
  {
    CodesHaveNoTagStart();
    if t == [] {
    } else if "<b>" <= t {
      HighlightUntagged(t[3..]);
      UntaggedAfterCode(RedStart, Highlight(t[3..]));
    } else if "</b>" <= t {
      HighlightUntagged(t[4..]);
      UntaggedAfterCode(RedEnd, Highlight(t[4..]));
    } else {
      HighlightUntagged(t[1..]);
      if t[0] == '<' {
        assert "<b>" == ['<'] + "b>" && "</b>" == ['<'] + "/b>";
        PrefixStep('<', "b>", t);
        PrefixStep('<', "/b>", t);
        HighlightKeepsAbsentPrefix("b>", t[1..]);
        HighlightKeepsAbsentPrefix("/b>", t[1..]);
      }
      UntaggedCons(t[0], Highlight(t[1..]));
    }
  }

  /** A text without `<` is printed as it is. */
  lemma {:induction false} HighlightPlain(t: string)
    requires '<' !in t
    ensures Highlight(t) == t
    decreases |t|
  {
    if t != [] {
      assert t[1..] == t[|[t[0]]|..];
      HighlightPlain(t[1..]);
    }
  }

  /** A front without `<` passes through highlighting untouched. */
  lemma {:induction false} HighlightSkipsPlainPrefix(a: string, x: string)
    requires '<' !in a
    ensures Highlight(a + x) == a + Highlight(x)
    decreases |a|
  {
    if a != [] {
      var s := a + x;
      assert s[0] == a[0] && s[1..] == a[1..] + x;
      assert !("<b>" <= s) && !("</b>" <= s);
      HighlightSkipsPlainPrefix(a[1..], x);
      assert [a[0]] + a[1..] == a;
    } else {
      assert a + x == x;
    }
  }

  /** `print_red(word)` shows a word without `<` exactly as a keyword
      `<b>word</b>` of a meaning text is shown. */
  lemma RedIsHighlightedKeyword(text: string)
    requires '<' !in text
    ensures Red(text) == Highlight("<b>" + text + "</b>")
  {
    var s := "<b>" + text + "</b>";
    assert "<b>" <= s && s[3..] == text + "</b>";
    HighlightSkipsPlainPrefix(text, "</b>");
    var close := "</b>";
    assert close[1] != "<b>"[1];
    assert close[4..] == [];
  }

  // ---------------------------------------------------------------------
  // The printed record

  /** The two lines written for one example when verbose output is on. */
  function ExampleLine(e: Example): string {
    "    - " + e.text + "\n" + "      " + e.translation + "\n"
  }

  function ExampleLines(es: seq<Example>): string {
    if es == [] then "" else ExampleLines(es[..|es| - 1]) + ExampleLine(es[|es| - 1])
  }

  /** The line for the meaning printed with counter `n`. */
  function BlockHead(n: nat, m: Meaning): string {
    NatToString(n) + ". (" + m.category + ") " + Highlight(m.text) + "\n"
  }

  /** The block for the meaning printed with counter `n`: its line, then
      its examples when the verbose flag is set. */
  function Block(n: nat, m: Meaning, verbose: bool): string {
    BlockHead(n, m) + (if verbose then ExampleLines(m.examples) else "")
  }

  /** The blocks of all meanings, numbered from 1 in list order. */
  function Blocks(ms: seq<Meaning>, verbose: bool): string {
    if ms == [] then "" else Blocks(ms[..|ms| - 1], verbose) + Block(|ms|, ms[|ms| - 1], verbose)
  }

  /** The whole output of `collins_pretty_print(d)`. With the m5 flag and
      more than five meanings the early return drops the final newline. */
  function Render(d: Option<Record>, verbose: bool, m5: bool): (out: string)
    ensures out == "" <==> d.None?
    ensures d.Some? && !(m5 && |d.value.meanings| > 5) ==> out[|out| - 1] == '\n'
  {
    match d
    case None => ""
    case Some(r) =>
      if m5 && |r.meanings| > 5 then Header(r) + Blocks(r.meanings[..5], verbose)
      else Header(r) + Blocks(r.meanings, verbose) + "\n"
  }

  /** The blocks of the first `k` meanings are a prefix of all blocks. */
  lemma {:induction false} BlocksPrefix(ms: seq<Meaning>, k: nat, verbose: bool)
    requires k <= |ms|
    ensures Blocks(ms[..k], verbose) <= Blocks(ms, verbose)
    decreases |ms|
  {
    if k < |ms| {
      var init := ms[..|ms| - 1];
      assert init[..k] == ms[..k];
      BlocksPrefix(init, k, verbose);
    } else {
      assert ms[..k] == ms;
    }
  }

  /** The meaning at index `i` is printed with number `i + 1`, right after
      the blocks of the meanings before it. */
  lemma {:induction false} BlockNumbering(ms: seq<Meaning>, i: nat, verbose: bool)
    requires i < |ms|
    ensures Blocks(ms[..i], verbose) + Block(i + 1, ms[i], verbose) <= Blocks(ms, verbose)
  {
    var pre := ms[..i + 1];
    assert pre[..|pre| - 1] == ms[..i];
    BlocksPrefix(ms, i + 1, verbose);
  }

  /** Nothing is printed for `None`; otherwise the output opens with the
      header line. */
  lemma {:induction false} RenderStartsWithHeader(d: Option<Record>, verbose: bool, m5: bool)
    ensures d.None? ==> Render(d, verbose, m5) == ""
    ensures d.Some? ==> Header(d.value) <= Render(d, verbose, m5)
  {
    if d.Some? {
      var r := d.value;
      var rest := if m5 && |r.meanings| > 5 then Blocks(r.meanings[..5], verbose)
                  else Blocks(r.meanings, verbose) + "\n";
      assert Render(d, verbose, m5) == Header(r) + rest;
      assert (Header(r) + rest)[..|Header(r)|] == Header(r);
    }
  }

  /** The m5 output is a prefix of the full output; it shows exactly the
      first five meanings and loses the final newline, and it is the full
      output when there are at most five meanings. */
  lemma {:induction false} M5Truncates(d: Option<Record>, verbose: bool)
    ensures Render(d, verbose, true) <= Render(d, verbose, false)
    ensures d.Some? && |d.value.meanings| > 5 ==>
      Render(d, verbose, true) + "\n" ==
      Render(Some(d.value.(meanings := d.value.meanings[..5])), verbose, false)
    ensures (d.None? || |d.value.meanings| <= 5) ==>
      Render(d, verbose, true) == Render(d, verbose, false)
  {
    if d.Some? && |d.value.meanings| > 5 {
      var r := d.value;
      var full := Blocks(r.meanings, verbose);
      var five := Blocks(r.meanings[..5], verbose);
      BlocksPrefix(r.meanings, 5, verbose);
      assert full <= full + "\n";
      PrefixUnderConcat(Header(r), five, full + "\n");
      assert (Header(r) + full) + "\n" == Header(r) + (full + "\n");
    }
  }

  /** A common front keeps one string a prefix of another. */
  lemma {:induction false} PrefixUnderConcat(h: string, x: string, y: string)
    requires x <= y
    ensures h + x <= h + y
  {
    assert (h + y)[..|h + x|] == h + x;
  }

  /** When no meaning has examples, the verbose flag changes nothing. */
  lemma {:induction false} VerboseWithoutExamplesIsPlain(ms: seq<Meaning>)
    requires forall i :: 0 <= i < |ms| ==> ms[i].examples == []
    ensures Blocks(ms, true) == Blocks(ms, false)
    decreases |ms|
  {
    if ms != [] {
      VerboseWithoutExamplesIsPlain(ms[..|ms| - 1]);
    }
  }

  /** Printing one more meaning appends its block, numbered by its position. */
  lemma {:induction false} BlocksSnoc(ms: seq<Meaning>, i: nat, verbose: bool)
    requires i < |ms|
    ensures Blocks(ms[..i + 1], verbose) == Blocks(ms[..i], verbose) + Block(i + 1, ms[i], verbose)
  {
    assert ms[..i + 1][..i] == ms[..i];
  }

  /** The inner loop of `collins_pretty_print`: two lines per example. */
  method WriteExamples(examples: seq<Example>) returns (out: string)
    ensures out == ExampleLines(examples)
  {
    out := "";
    var j := 0;
    while j < |examples|
      invariant 0 <= j <= |examples|
      invariant out == ExampleLines(examples[..j])
    {
      var example := examples[j];
      out := out + "    - ";
      out := out + example.text;
      out := out + "\n";
      out := out + "      ";
      out := out + example.translation;
      out := out + "\n";
      assert examples[..j + 1][..j] == examples[..j];
      j := j + 1;
    }
    assert examples[..j] == examples;
  }

  /** The writes for one meaning line add the head of its block. */
  lemma {:induction false} MeaningLine(n: nat, m: Meaning, text: string)
    requires text == ReplaceAll(ReplaceAll(m.text, "<b>", RedStart), "</b>", RedEnd)
    ensures NatToString(n) + ". (" + m.category + ") " + text + "\n" == BlockHead(n, m)
  {
    TwoReplacesHighlight(m.text);
  }

  /** One pass of the loop of `collins_pretty_print`: the numbered line
      with the category and the highlighted text, then the examples when
      the verbose flag is set. */
  method WriteMeaning(counter: nat, meaning: Meaning, verbose: bool) returns (out: string)
    ensures out == Block(counter, meaning, verbose)
  {
    out := NatToString(counter) + ". (" + meaning.category + ") ";
    var text := ReplaceAll(meaning.text, "<b>", RedStart);
    text := ReplaceAll(text, "</b>", RedEnd);
    out := out + text;
    out := out + "\n";
    MeaningLine(counter, meaning, text);
    assert out == BlockHead(counter, meaning);
    if verbose {
      var lines := WriteExamples(meaning.examples);
      out := out + lines;
    }
  }

  /** What is printed so far grows by the block of the next meaning. */
  lemma {:induction false} PrintedSnoc(r: Record, i: nat, verbose: bool, block: string)
    requires i < |r.meanings| && block == Block(i + 1, r.meanings[i], verbose)
    ensures Header(r) + Blocks(r.meanings[..i], verbose) + block ==
            Header(r) + Blocks(r.meanings[..i + 1], verbose)
  {
    BlocksSnoc(r.meanings, i, verbose);
    assert (Header(r) + Blocks(r.meanings[..i], verbose)) + block ==
           Header(r) + (Blocks(r.meanings[..i], verbose) + block);
  }

  /** `collins_pretty_print` as the source writes it: the header through
      `print_red`, then a loop over the meanings with a counter that stops
      before the sixth meaning under the m5 flag, then a final newline. */
  method PrettyPrint(d: Option<Record>, verbose: bool, m5: bool) returns (out: string)
    ensures out == Render(d, verbose, m5)
  {
    out := "";
    if d.None? {
      return;
    }
    var r := d.value;
    out := out + Red(r.word);
    out := out + "        ";
    out := out + r.phonetic;
    out := out + "\n";
    var counter := 1;
    var i := 0;
    while i < |r.meanings|
      invariant 0 <= i <= |r.meanings|
      invariant counter == i + 1
      invariant m5 ==> i <= 5
      invariant out == Header(r) + Blocks(r.meanings[..i], verbose)
    {
      var meaning := r.meanings[i];
      if m5 && counter == 6 {
        return;
      }
      var block := WriteMeaning(counter, meaning, verbose);
      counter := counter + 1;
      PrintedSnoc(r, i, verbose, block);
      out := out + block;
      i := i + 1;
    }
    assert r.meanings[..i] == r.meanings;
    out := out + "\n";
  }
}
