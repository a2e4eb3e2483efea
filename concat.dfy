/** The loop in `get_collins_dict` that builds a meaning's text from the
    children of its `<p>` element. The children are abstract nodes: the
    `<span>` holding the category, a `<b>` keyword tag, a text string, or
    any other tag. */
module Concat {
  import opened Records
  import opened PyStr
  import opened Search

  datatype Node = Span | Bold(text: string) | Str(text: string) | OtherTag(name: string)

  /** What the loop leaves behind: the text, `None` (no span, or nothing
      but blanks after it), or a fault, because `strip()` is called on a
      tag that is neither `<span>` nor `<b>`, which is not a string. */
  datatype Outcome = Text(meaning: string) | Missing | Fault

  /** The stripped text a string or keyword node contributes. */
  function Piece(n: Node): string
    requires n.Bold? || n.Str?
  {
    match n
    case Bold(t) => Strip("<b>" + t + "</b>")
    case Str(t) => Strip(t)
  }

  /** What one node after the first span adds to the meaning: a span adds
      nothing, another tag is a fault, a string or keyword adds its stripped
      text and one space, or nothing when the stripped text is empty. */
  function Contribution(n: Node): (c: Option<string>)
    ensures n.Span? ==> c == Some("")
    ensures n.OtherTag? <==> c.None?
  {
    match n
    case Span => Some("")
    case OtherTag(_) => None
    case _ =>
      var p := Piece(n);
      Some(if p == "" then "" else p + " ")
  }

  /** A non-empty contribution is text that ends in one space after a
      non-blank character. */
  lemma ContributionEndsWithOneSpace(n: Node)
    requires Contribution(n).Some? && Contribution(n).value != ""
    ensures var t := Contribution(n).value;
      |t| >= 2 && t[|t| - 1] == ' ' && !IsSpace(t[|t| - 2])
  {
    assert Trimmed(Piece(n));
  }

  /** Two partial texts in order; a fault on either side is a fault. */
  function Combine(a: Option<string>, b: Option<string>): Option<string> {
    if a.Some? && b.Some? then Some(a.value + b.value) else None
  }

  /** The text all the given nodes contribute, in order. */
  function Joined(ns: seq<Node>): Option<string> {
    if ns == [] then Some("") else Combine(Contribution(ns[0]), Joined(ns[1..]))
  }

  predicate IsSpan(n: Node) {
    n.Span?
  }

  /** Reference reading of the loop: skip up to and including the first
      span, join the rest, and fail when nothing was found. Without a span
      nothing is found, and a found meaning is never empty. */
  function MeaningText(ns: seq<Node>): (r: Outcome)
    ensures FirstIndex(ns, IsSpan).None? ==> r == Missing
    ensures r.Text? ==> r.meaning != ""
  {
    match FirstIndex(ns, IsSpan)
    case None => Missing
    case Some(k) =>
      match Joined(ns[k + 1..])
      case None => Fault
      case Some(s) => if s == "" then Missing else Text(s)
  }

  /** Combining partial texts is associative. */
  lemma CombineAssoc(a: Option<string>, b: Option<string>, c: Option<string>)
    ensures Combine(Combine(a, b), c) == Combine(a, Combine(b, c))
  {
    if a.Some? && b.Some? && c.Some? {
      assert (a.value + b.value) + c.value == a.value + (b.value + c.value);
    }
  }

  /** Joining distributes over concatenation of node lists. */
  lemma {:induction false} JoinedAppend(a: seq<Node>, b: seq<Node>)
    ensures Joined(a + b) == Combine(Joined(a), Joined(b))
    decreases |a|
  {
    if a == [] {
      assert a + b == b;
      if Joined(b).Some? {
        assert "" + Joined(b).value == Joined(b).value;
      }
    } else {
      assert (a + b)[0] == a[0] && (a + b)[1..] == a[1..] + b;
      JoinedAppend(a[1..], b);
      CombineAssoc(Contribution(a[0]), Joined(a[1..]), Joined(b));
    }
  }

  /** A single node is joined to its own contribution. */
  lemma {:induction false} JoinedSingle(n: Node)
    ensures Joined([n]) == Contribution(n)
  {
    assert [n][1..] == [];
    if Contribution(n).Some? {
      assert Contribution(n).value + "" == Contribution(n).value;
    }
  }

  /** A span node never contributes text, wherever it stands. */
  lemma {:induction false} SpanContributesNothing(a: seq<Node>, b: seq<Node>)
    ensures Joined(a + [Span] + b) == Joined(a + b)
  {
    assert a + [Span] + b == a + ([Span] + b);
    JoinedAppend(a, [Span] + b);
    assert ([Span] + b)[1..] == b;
    assert Joined([Span] + b) == Combine(Some(""), Joined(b));
    if Joined(b).Some? {
      assert "" + Joined(b).value == Joined(b).value;
    }
    JoinedAppend(a, b);
  }

  /** Whatever precedes the first span contributes nothing. */
  lemma {:induction false} PrefixBeforeSpanIgnored(pre: seq<Node>, post: seq<Node>)
    requires forall j :: 0 <= j < |pre| ==> !pre[j].Span?
    ensures MeaningText(pre + [Span] + post) == MeaningText([Span] + post)
  {
    var ns := pre + [Span] + post;
    assert ns[|pre|].Span?;
    assert FirstIndex(ns, IsSpan) == Some(|pre|);
    assert ns[|pre| + 1..] == post;
    assert FirstIndex([Span] + post, IsSpan) == Some(0);
    assert ([Span] + post)[1..] == post;
  }

  /** A keyword tag contributes `<b>text</b>`, untouched by the stripping. */
  lemma BoldPiece(t: string)
    ensures Piece(Bold(t)) == "<b>" + t + "</b>"
  {
    var s := "<b>" + t + "</b>";
    assert s[0] == '<' && s[|s| - 1] == '>';
  }

  /** Every joined text is empty or ends in exactly one space after
      non-blank text. */
  lemma {:induction false} JoinedEndsWithOneSpace(ns: seq<Node>)
    requires Joined(ns).Some? && Joined(ns).value != ""
    ensures var s := Joined(ns).value;
      |s| >= 2 && s[|s| - 1] == ' ' && !IsSpace(s[|s| - 2])
    decreases |ns|
  {
    var s := Joined(ns).value;
    var c := Contribution(ns[0]).value;
    var rest := Joined(ns[1..]).value;
    assert s == c + rest;
    if rest == "" {
      assert s == c;
      ContributionEndsWithOneSpace(ns[0]);
    } else {
      JoinedEndsWithOneSpace(ns[1..]);
      assert s[|s| - 2..] == rest[|rest| - 2..];
    }
  }

  /** A found meaning is non-empty and ends in exactly one space. */
  lemma {:induction false} MeaningEndsWithOneSpace(ns: seq<Node>)
    requires MeaningText(ns).Text?
    ensures var s := MeaningText(ns).meaning;
      |s| >= 2 && s[|s| - 1] == ' ' && !IsSpace(s[|s| - 2])
  {
    JoinedEndsWithOneSpace(ns[FirstIndex(ns, IsSpan).value + 1..]);
  }

  /** Joining one more node of a slice adds that node's contribution. */
  lemma {:induction false} JoinedExtend(ns: seq<Node>, lo: nat, i: nat)
    requires lo <= i < |ns|
    ensures Joined(ns[lo..i + 1]) == Combine(Joined(ns[lo..i]), Contribution(ns[i]))
  {
    assert ns[lo..i + 1] == ns[lo..i] + [ns[i]];
    JoinedAppend(ns[lo..i], [ns[i]]);
    JoinedSingle(ns[i]);
  }

  /** An unsupported tag anywhere in the slice makes the join fail. */
  lemma {:induction false} JoinedFaultAt(ns: seq<Node>, lo: nat, i: nat)
    requires lo <= i < |ns| && ns[i].OtherTag?
    ensures Joined(ns[lo..]) == None
  {
    JoinedExtend(ns, lo, i);
    assert ns[lo..] == ns[lo..i + 1] + ns[i + 1..];
    JoinedAppend(ns[lo..i + 1], ns[i + 1..]);
  }

  /** Joining fails exactly when some node is a tag other than span or `b`. */
  lemma {:induction false} JoinedFailsIffOtherTag(ns: seq<Node>)
    ensures Joined(ns).None? <==> exists j :: 0 <= j < |ns| && ns[j].OtherTag?
    decreases |ns|
  {
    if ns != [] {
      var rest := ns[1..];
      JoinedFailsIffOtherTag(rest);
      if exists j :: 0 <= j < |rest| && rest[j].OtherTag? {
        var j :| 0 <= j < |rest| && rest[j].OtherTag?;
        assert ns[j + 1] == rest[j];
      }
      if exists j :: 0 <= j < |ns| && ns[j].OtherTag? {
        var j :| 0 <= j < |ns| && ns[j].OtherTag?;
        if j > 0 {
          assert rest[j - 1] == ns[j];
        }
      }
    }
  }

  /** The lookup of a meaning fails with an error exactly when the first
      span is followed, somewhere, by a tag other than span or `b`. */
  lemma FaultIffOtherTagAfterSpan(ns: seq<Node>)
    ensures MeaningText(ns) == Fault <==>
      FirstIndex(ns, IsSpan).Some? &&
      exists j :: FirstIndex(ns, IsSpan).value < j < |ns| && ns[j].OtherTag?
  {
    var f := FirstIndex(ns, IsSpan);
    if f.Some? {
      var k := f.value;
      var post := ns[k + 1..];
      JoinedFailsIffOtherTag(post);
      if exists j :: k < j < |ns| && ns[j].OtherTag? {
        var j :| k < j < |ns| && ns[j].OtherTag?;
        assert post[j - k - 1] == ns[j];
      }
      if exists i :: 0 <= i < |post| && post[i].OtherTag? {
        var i :| 0 <= i < |post| && post[i].OtherTag?;
        assert ns[i + k + 1] == post[i];
      }
    }
  }

  /** The loop of the source: `start_concat` turns on at a span, and from
      then on each string or keyword is stripped and, if non-empty,
      appended with one space. */
  method ConcatMeaning(contents: seq<Node>) returns (res: Outcome)
    ensures res == MeaningText(contents)
  {
    var startConcat := false;
    var meaning := "";
    ghost var k := 0;
    var i := 0;
    while i < |contents|
      invariant 0 <= i <= |contents|
      invariant !startConcat ==> meaning == "" && forall j :: 0 <= j < i ==> !contents[j].Span?
      invariant startConcat ==> k < i && FirstIndex(contents, IsSpan) == Some(k) &&
                                Joined(contents[k + 1..i]) == Some(meaning)
    {
      var content := contents[i];
      if content.Span? {
        if !startConcat {
          k := i;
          assert contents[k + 1..i + 1] == [];
        } else {
          JoinedExtend(contents, k + 1, i);
          assert meaning + "" == meaning;
        }
        startConcat := true;
        i := i + 1;
        continue;
      }
      if startConcat {
        JoinedExtend(contents, k + 1, i);
        if content.OtherTag? {
          JoinedFaultAt(contents, k + 1, i);
          assert MeaningText(contents) == Fault;
          return Fault;
        }
        var piece := Piece(content);
        if |piece| == 0 {
          assert meaning + "" == meaning;
          i := i + 1;
          continue;
        }
        meaning := meaning + (piece + " ");
      }
      i := i + 1;
    }
    if !startConcat {
      assert FirstIndex(contents, IsSpan) == None;
      return Missing;
    }
    assert contents[k + 1..i] == contents[k + 1..];
    assert Joined(contents[k + 1..]) == Some(meaning);
    if |meaning| == 0 {
      return Missing;
    }
    res := Text(meaning);
  }
}
