/** The few Python string and path operations the program relies on:
    `str.isspace`, `str.strip`, `str.replace`, `"%d" % n` and
    `os.path.join` with two components (POSIX flavour). */
module PyStr {

  /** Python's `str.isspace` on a single character. */
  predicate IsSpace(c: char) {
    c == ' ' || ('\t' <= c <= '\r') || ('\U{1C}' <= c <= '\U{1F}') ||
    c == '\U{85}' || c == '\U{A0}' || c == '\U{1680}' ||
    ('\U{2000}' <= c <= '\U{200A}') || c == '\U{2028}' || c == '\U{2029}' ||
    c == '\U{202F}' || c == '\U{205F}' || c == '\U{3000}'
  }

  /** Every character is whitespace. */
  predicate AllSpace(s: string) {
    forall k :: 0 <= k < |s| ==> IsSpace(s[k])
  }

  /** Neither the first nor the last character is whitespace. */
  predicate Trimmed(s: string) {
    s == [] || (!IsSpace(s[0]) && !IsSpace(s[|s| - 1]))
  }

  /** `s.strip()`: whitespace is dropped from both ends, one character at
      a time, until neither end is blank. */
  function Strip(s: string): (r: string)
    ensures Trimmed(r)
    ensures Trimmed(s) ==> r == s
    decreases |s|
  {
    if |s| > 0 && IsSpace(s[0]) then Strip(s[1..])
    else if |s| > 0 && IsSpace(s[|s| - 1]) then Strip(s[..|s| - 1])
    else s
  }

  /** Blank strings joined stay blank. */
  lemma {:induction false} AllSpaceConcat(a: string, b: string)
    requires AllSpace(a) && AllSpace(b)
    ensures AllSpace(a + b)
  {
    forall k | 0 <= k < |a + b|
      ensures IsSpace((a + b)[k])
    {
      if k < |a| {
        assert (a + b)[k] == a[k];
      } else {
        assert (a + b)[k] == b[k - |a|];
      }
    }
  }

  /** `s.strip()` keeps a middle part of `s` and drops only whitespace
      on either side of it. */
  lemma StripDropsOnlySpace(s: string)
    ensures exists pre, post :: s == pre + Strip(s) + post && AllSpace(pre) && AllSpace(post)
  {
    var pre, post := StripSplit(s);
  }

  /** The blank prefix and suffix that `s.strip()` drops. */
  lemma {:induction false} StripSplit(s: string) returns (pre: string, post: string)
    ensures s == pre + Strip(s) + post && AllSpace(pre) && AllSpace(post)
    decreases |s|
  {
    var r := Strip(s);
    if |s| > 0 && IsSpace(s[0]) {
      var pre', post' := StripSplit(s[1..]);
      BlankBefore(s[0], s[1..], pre', r, post');
      pre, post := [s[0]] + pre', post';
    } else if |s| > 0 && IsSpace(s[|s| - 1]) {
      var pre', post' := StripSplit(s[..|s| - 1]);
      BlankAfter(s[..|s| - 1], s[|s| - 1], pre', r, post');
      assert s == s[..|s| - 1] + [s[|s| - 1]];
      pre, post := pre', post' + [s[|s| - 1]];
    } else {
      pre, post := [], [];
      assert s == pre + r + post;
    }
  }

  /** One more blank in front extends the blank prefix. */
  lemma {:induction false} BlankBefore(c: char, t: string, pre: string, r: string, post: string)
    requires IsSpace(c) && t == pre + r + post && AllSpace(pre)
    ensures [c] + t == ([c] + pre) + r + post && AllSpace([c] + pre)
  {
    AllSpaceConcat([c], pre);
  }

  /** One more blank behind extends the blank suffix. */
  lemma {:induction false} BlankAfter(t: string, c: char, pre: string, r: string, post: string)
    requires IsSpace(c) && t == pre + r + post && AllSpace(post)
    ensures t + [c] == pre + r + (post + [c]) && AllSpace(post + [c])
  {
    AllSpaceConcat(post, [c]);
  }

  /** `s.strip()` is empty exactly when `s` is all whitespace. */
  lemma {:induction false} StripEmptyIffBlank(s: string)
    ensures Strip(s) == [] <==> AllSpace(s)
  {
    var r := Strip(s);
    StripDropsOnlySpace(s);
    var pre, post :| s == pre + r + post && AllSpace(pre) && AllSpace(post);
    if r == [] {
      assert s == pre + post;
      AllSpaceConcat(pre, post);
    } else {
      assert r[0] == s[|pre|];
    }
  }

  /** `s.replace(pat, rep)`: every non-overlapping occurrence of `pat`,
      found from left to right, is replaced by `rep`. */
  function ReplaceAll(s: string, pat: string, rep: string): string
    requires |pat| > 0
    decreases |s|
  {
    if s == [] then []
    else if pat <= s then rep + ReplaceAll(s[|pat|..], pat, rep)
    else [s[0]] + ReplaceAll(s[1..], pat, rep)
  }

  /** A prefix that holds no copy of the pattern's first character passes
      through the replacement untouched. */
  lemma {:induction false} ReplaceAllSkipsPrefix(a: string, x: string, pat: string, rep: string)
    requires |pat| > 0 && pat[0] !in a
    ensures ReplaceAll(a + x, pat, rep) == a + ReplaceAll(x, pat, rep)
  {
    if a == [] {
      assert a + x == x;
    } else {
      assert !(pat <= a + x) by { assert (a + x)[0] == a[0] != pat[0]; }
      assert (a + x)[1..] == a[1..] + x;
      ReplaceAllSkipsPrefix(a[1..], x, pat, rep);
      calc {
        ReplaceAll(a + x, pat, rep);
        [a[0]] + ReplaceAll(a[1..] + x, pat, rep);
        [a[0]] + (a[1..] + ReplaceAll(x, pat, rep));
        { assert [a[0]] + a[1..] == a; }
        a + ReplaceAll(x, pat, rep);
      }
    }
  }

  /** The character for a decimal digit. */
  function DigitChar(d: nat): char
    requires d < 10
  {
    (48 + d) as char
  }

  /** `"%d" % n`: the decimal numeral of `n`, without leading zeros. */
  function NatToString(n: nat): (r: string)
    ensures |r| >= 1
    ensures forall k :: 0 <= k < |r| ==> '0' <= r[k] <= '9'
    ensures r[0] == '0' ==> n == 0
  {
    if n < 10 then [DigitChar(n)] else NatToString(n / 10) + [DigitChar(n % 10)]
  }

  /** Reads a string of decimal digits back as a number. */
  function ParseNat(s: string): nat
    requires forall k :: 0 <= k < |s| ==> '0' <= s[k] <= '9'
  {
    if s == [] then 0 else ParseNat(s[..|s| - 1]) * 10 + (s[|s| - 1] as int - 48)
  }

  /** The numeral written for a counter reads back as that counter. */
  lemma {:induction false} ParseNatToString(n: nat)
    ensures ParseNat(NatToString(n)) == n
  {
    if n >= 10 {
      var s := NatToString(n);
      assert s[..|s| - 1] == NatToString(n / 10);
      ParseNatToString(n / 10);
    }
  }

  /** `os.path.join(a, b)` for POSIX paths: an absolute `b` replaces `a`;
      otherwise one separator is inserted unless `a` is empty or already
      ends with one. */
  function PathJoin(a: string, b: string): (r: string)
    ensures |b| <= |r| && r[|r| - |b|..] == b
    ensures (b == [] || b[0] != '/') ==> a <= r
  {
    if |b| > 0 && b[0] == '/' then b
    else if a == [] || a[|a| - 1] == '/' then a + b
    else a + "/" + b
  }
}
