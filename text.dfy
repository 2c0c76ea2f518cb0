/** The string operations the handlers use: Python's `str.strip()`, the
    `' '.join(s.split())` idiom that collapses whitespace, and SQL `LIKE '%t%'`. */
module Text {

  /** Python's `str.isspace()` for one character: the characters that
      `strip()` and `split()` with no argument treat as whitespace. */
  predicate IsSpace(c: char)
  {
    || '\t' <= c <= '\r'
    || '\U{1C}' <= c <= '\U{1F}'
    || c == ' '
    || c == '\U{85}'
    || c == '\U{A0}'
    || c == '\U{1680}'
    || '\U{2000}' <= c <= '\U{200A}'
    || c == '\U{2028}'
    || c == '\U{2029}'
    || c == '\U{202F}'
    || c == '\U{205F}'
    || c == '\U{3000}'
  }

  predicate NoSpace(s: string)
  {
    forall i | 0 <= i < |s| :: !IsSpace(s[i])
  }

  /** One item of `split()`'s result: a non-empty run of non-whitespace. */
  predicate IsWord(w: string)
  {
    w != [] && NoSpace(w)
  }

  predicate AllSpace(s: string)
  {
    forall i | 0 <= i < |s| :: IsSpace(s[i])
  }

  /** How many whitespace characters `s` starts with. */
  function LeadingSpace(s: string): (k: nat)
    ensures k <= |s|
    ensures forall i | 0 <= i < k :: IsSpace(s[i])
    ensures k == |s| || !IsSpace(s[k])
  {
    if s != [] && IsSpace(s[0]) then 1 + LeadingSpace(s[1..]) else 0
  }

  /** How many whitespace characters `s` ends with. */
  function TrailingSpace(s: string): (k: nat)
    ensures k <= |s|
    ensures forall i | |s| - k <= i < |s| :: IsSpace(s[i])
    ensures k == |s| || !IsSpace(s[|s| - k - 1])
  {
    if s != [] && IsSpace(s[|s| - 1]) then 1 + TrailingSpace(s[..|s| - 1]) else 0
  }

  /** `s.lstrip()`: the suffix left after dropping leading whitespace. */
  function LStrip(s: string): (r: string)
    ensures |r| <= |s| && r == s[|s| - |r|..]
    ensures AllSpace(s[..|s| - |r|])
    ensures r == [] || !IsSpace(r[0])
  {
    s[LeadingSpace(s)..]
  }

  /** `s.rstrip()`: the prefix left after dropping trailing whitespace. */
  function RStrip(s: string): (r: string)
    ensures |r| <= |s| && r == s[..|r|]
    ensures AllSpace(s[|r|..])
    ensures r == [] || !IsSpace(r[|r| - 1])
  {
    s[..|s| - TrailingSpace(s)]
  }

  /** `s.strip()`: empty exactly when `s` is all whitespace. */
  function Strip(s: string): (r: string)
    ensures r == [] <==> AllSpace(s)
  {
    var t := LStrip(s);
    var r := RStrip(t);
    StripShape(s, t, r);
    r
  }

  /** The stripped text is the infix of `s` between its leading and trailing
      whitespace, and starts and ends with a non-whitespace character. */
  lemma StripSpec(s: string)
    ensures var r := Strip(s); var k := |s| - |LStrip(s)|;
      && k + |r| <= |s| && r == s[k..k + |r|]
      && AllSpace(s[..k]) && AllSpace(s[k + |r|..])
      && (r == [] || (!IsSpace(r[0]) && !IsSpace(r[|r| - 1])))
  {
    var t := LStrip(s);
    StripShape(s, t, RStrip(t));
  }

  lemma StripShape(s: string, t: string, r: string)
    requires |t| <= |s| && t == s[|s| - |t|..] && AllSpace(s[..|s| - |t|])
    requires t == [] || !IsSpace(t[0])
    requires |r| <= |t| && r == t[..|r|] && AllSpace(t[|r|..])
    requires r == [] || !IsSpace(r[|r| - 1])
    ensures var k := |s| - |t|;
      && k + |r| <= |s| && r == s[k..k + |r|]
      && AllSpace(s[..k]) && AllSpace(s[k + |r|..])
    ensures r == [] || (!IsSpace(r[0]) && !IsSpace(r[|r| - 1]))
    ensures r == [] <==> AllSpace(s)
  {
    var k := |s| - |t|;
    assert s[k..k + |r|] == r;
    assert s[k + |r|..] == t[|r|..];
    if r == [] {
      assert t[|r|..] == t;
      assert t == [];
      assert s == s[..k];
    } else {
      assert s[k] == t[0] == r[0];
    }
  }

  /** How many non-whitespace characters `s` starts with. */
  function WordLength(s: string): (k: nat)
    ensures k <= |s|
    ensures forall i | 0 <= i < k :: !IsSpace(s[i])
    ensures k == |s| || IsSpace(s[k])
  {
    if s != [] && !IsSpace(s[0]) then 1 + WordLength(s[1..]) else 0
  }

  /** The longest prefix of `s` with no whitespace: one word of `split()`. */
  function TakeWord(s: string): (w: string)
    ensures |w| <= |s| && w == s[..|w|]
    ensures NoSpace(w)
    ensures |w| == |s| || IsSpace(s[|w|])
  {
    s[..WordLength(s)]
  }

  /** `s.split()` with no argument: the maximal runs of non-whitespace, in order. */
  function Words(s: string): (ws: seq<string>)
    ensures forall w | w in ws :: IsWord(w)
    decreases |s|
  {
    var t := LStrip(s);
    if t == [] then []
    else
      var w := TakeWord(t);
      assert |w| != 0 by { assert !IsSpace(t[0]); }
      [w] + Words(t[|w|..])
  }

  /** `' '.join(ws)`. */
  function Join(ws: seq<string>): string
  {
    if |ws| == 0 then ""
    else if |ws| == 1 then ws[0]
    else ws[0] + " " + Join(ws[1..])
  }

  /** `' '.join(s.split())`. */
  function Collapse(s: string): string
  {
    Join(Words(s))
  }

  /** A collapsed string: its only whitespace is the plain space, it neither
      starts nor ends with one, and no two spaces are adjacent. */
  predicate Collapsed(c: string)
  {
    && (forall i | 0 <= i < |c| :: IsSpace(c[i]) ==> c[i] == ' ')
    && (c == [] || (c[0] != ' ' && c[|c| - 1] != ' '))
    && (forall i | 0 <= i < |c| - 1 :: c[i] == ' ' ==> c[i + 1] != ' ')
  }

  lemma {:induction false} JoinCollapsed(ws: seq<string>)
    requires forall w | w in ws :: IsWord(w)
    ensures Collapsed(Join(ws))
    ensures ws != [] ==> Join(ws) != []
  {
    if |ws| >= 2 {
      var w := ws[0];
      var rest := ws[1..];
      assert w in ws && forall x | x in rest :: x in ws;
      JoinCollapsed(rest);
      var j := Join(rest);
      var out := w + " " + j;
      assert Join(ws) == out;
      assert !IsSpace(w[|w| - 1]);
      forall i | 0 <= i < |out| ensures IsSpace(out[i]) ==> out[i] == ' ' {
        if i < |w| { assert out[i] == w[i]; }
        else if i > |w| { assert out[i] == j[i - |w| - 1]; }
      }
      forall i | 0 <= i < |out| - 1 ensures out[i] == ' ' ==> out[i + 1] != ' ' {
        if i < |w| - 1 {
          assert out[i] == w[i];
        } else if i == |w| - 1 {
          assert out[i] == w[|w| - 1];
        } else if i == |w| {
          assert out[i + 1] == j[0];
        } else {
          assert out[i] == j[i - |w| - 1] && out[i + 1] == j[i - |w|];
        }
      }
      assert out[|out| - 1] == j[|j| - 1];
    } else if |ws| == 1 {
      assert Join(ws) == ws[0] && ws[0] in ws;
    }
  }

  /** `' '.join(s.split())` is always collapsed. */
  lemma CollapseCollapsed(s: string)
    ensures Collapsed(Collapse(s))
  {
    JoinCollapsed(Words(s));
  }

  /** The non-whitespace characters of `s`, in order. */
  function Visible(s: string): string
  {
    if s == [] then [] else (if IsSpace(s[0]) then [] else [s[0]]) + Visible(s[1..])
  }

  function Concat(ws: seq<string>): string
  {
    if ws == [] then [] else ws[0] + Concat(ws[1..])
  }

  lemma {:induction false} VisibleAppend(a: string, b: string)
    ensures Visible(a + b) == Visible(a) + Visible(b)
  {
    if a != [] {
      VisibleAppend(a[1..], b);
      assert (a + b)[0] == a[0];
      assert (a + b)[1..] == a[1..] + b;
      assert Visible(a + b) == (if IsSpace(a[0]) then [] else [a[0]]) + Visible(a[1..] + b);
    } else {
      assert a + b == b;
    }
  }

  lemma {:induction false} VisibleOfSpace(s: string)
    requires AllSpace(s)
    ensures Visible(s) == []
  {
    if s != [] { VisibleOfSpace(s[1..]); }
  }

  lemma {:induction false} VisibleOfWord(s: string)
    requires NoSpace(s)
    ensures Visible(s) == s
  {
    if s != [] {
      VisibleOfWord(s[1..]);
      assert s == [s[0]] + s[1..];
    }
  }

  lemma {:induction false} VisibleOfJoin(ws: seq<string>)
    requires forall w | w in ws :: IsWord(w)
    ensures Visible(Join(ws)) == Concat(ws)
  {
    if |ws| == 1 {
      assert ws[0] in ws;
      VisibleOfWord(ws[0]);
      assert Concat(ws[1..]) == [];
    } else if |ws| >= 2 {
      assert ws[0] in ws && forall x | x in ws[1..] :: x in ws;
      VisibleOfJoin(ws[1..]);
      VisibleAppend(ws[0] + " ", Join(ws[1..]));
      VisibleAppend(ws[0], " ");
      VisibleOfWord(ws[0]);
      assert Visible(" ") == [];
    }
  }

  lemma {:induction false} VisibleOfWords(s: string)
    ensures Visible(s) == Concat(Words(s))
    decreases |s|
  {
    var t := LStrip(s);
    var k := |s| - |t|;
    assert s == s[..k] + t;
    VisibleAppend(s[..k], t);
    VisibleOfSpace(s[..k]);
    if t != [] {
      var w := TakeWord(t);
      var rest := t[|w|..];
      assert t == w + rest;
      VisibleAppend(w, rest);
      VisibleOfWord(w);
      VisibleOfWords(rest);
      assert Words(s) == [w] + Words(rest);
      assert Concat(Words(s)) == w + Concat(Words(rest));
    }
  }

  /** Collapsing whitespace only touches whitespace: the visible characters are
      exactly those of the input, in the same order. */
  lemma CollapseKeepsVisible(s: string)
    ensures Visible(Collapse(s)) == Visible(s)
  {
    VisibleOfJoin(Words(s));
    VisibleOfWords(s);
  }

  // ---------------------------------------------------------------------------
  // What `split()` computes: whitespace only separates, and any non-empty run
  // of it separates exactly once.

  lemma {:induction false} LeadingSpacePrefix(p: string, s: string)
    requires AllSpace(p)
    ensures LeadingSpace(p + s) == |p| + LeadingSpace(s)
  {
    if p != [] {
      assert (p + s)[0] == p[0];
      assert (p + s)[1..] == p[1..] + s;
      LeadingSpacePrefix(p[1..], s);
    } else {
      assert p + s == s;
    }
  }

  /** Leading whitespace never changes the words. */
  lemma WordsSpacePrefix(p: string, s: string)
    requires AllSpace(p)
    ensures Words(p + s) == Words(s)
  {
    LeadingSpacePrefix(p, s);
    assert LStrip(p + s) == (p + s)[|p| + LeadingSpace(s)..] == s[LeadingSpace(s)..];
  }

  /** A single word splits into itself. */
  lemma WordsOfWord(w: string)
    requires IsWord(w)
    ensures Words(w) == [w]
  {
    assert LStrip(w) == w;
    assert TakeWord(w) == w;
    assert w[|w|..] == [];
  }

  /** A text that starts with a word: that word, then the words of the rest. */
  lemma WordsFromWord(t: string)
    requires t != [] && !IsSpace(t[0])
    ensures |TakeWord(t)| != 0
    ensures Words(t) == [TakeWord(t)] + Words(t[|TakeWord(t)|..])
  {
    assert LStrip(t) == t;
  }

  /** A word ends where whitespace begins, whatever follows. */
  lemma TakeWordBeforeSpace(t: string, v: string)
    requires v != [] && IsSpace(v[0])
    ensures TakeWord(t + v) == TakeWord(t)
  {
    var w := TakeWord(t);
    var u := t + v;
    assert IsSpace(u[|w|]) by {
      if |w| < |t| { assert u[|w|] == t[|w|]; } else { assert u[|w|] == v[0]; }
    }
    forall i | 0 <= i < |w| ensures u[i] == w[i] && !IsSpace(u[i]) { assert u[i] == t[i]; }
    assert WordLength(u) == |w|;
  }

  /** The first word of a text followed by whitespace is the text's first word. */
  lemma WordsBeforeSpace(t: string, v: string)
    requires t != [] && !IsSpace(t[0]) && v != [] && IsSpace(v[0])
    ensures Words(t + v) == [TakeWord(t)] + Words(t[|TakeWord(t)|..] + v)
  {
    var u := t + v;
    assert u[0] == t[0];
    WordsFromWord(u);
    TakeWordBeforeSpace(t, v);
    assert u[|TakeWord(t)|..] == t[|TakeWord(t)|..] + v;
  }

  /** Dropping leading whitespace first does not change the words. */
  lemma WordsAfterLStrip(a: string, v: string)
    ensures Words(a + v) == Words(LStrip(a) + v)
  {
    var t := LStrip(a);
    var k := |a| - |t|;
    assert a == a[..k] + t;
    assert a + v == a[..k] + (t + v);
    WordsSpacePrefix(a[..k], t + v);
  }

  /** A non-empty run of whitespace between two texts splits them apart and
      contributes no word of its own. */
  lemma {:induction false} WordsSplit(a: string, sp: string, b: string)
    requires sp != [] && AllSpace(sp)
    ensures Words(a + sp + b) == Words(a) + Words(b)
    decreases |a|
  {
    if LStrip(a) == [] {
      WordsSplitBlank(a, sp, b);
    } else {
      var rest := AfterFirstWord(a);
      WordsSplitStep(a, sp, b);
      WordsSplit(rest, sp, b);
      Regroup(Words(a + sp + b), Words(rest + sp + b), Words(rest), Words(b), Words(a), TakeWord(LStrip(a)));
    }
  }

  /** What is left of `a` after its first word. */
  function AfterFirstWord(a: string): string
  {
    var t := LStrip(a);
    t[|TakeWord(t)|..]
  }

  lemma WordsSplitBlank(a: string, sp: string, b: string)
    requires sp != [] && AllSpace(sp) && LStrip(a) == []
    ensures Words(a + sp + b) == Words(b) && Words(a) == []
  {
    var t := LStrip(a);
    WordsAfterLStrip(a, sp + b);
    Regrouped(a, sp, b);
    assert t + (sp + b) == sp + b;
    WordsSpacePrefix(sp, b);
  }

  lemma WordsSplitStep(a: string, sp: string, b: string)
    requires sp != [] && AllSpace(sp) && LStrip(a) != []
    ensures |AfterFirstWord(a)| < |a|
    ensures Words(a + sp + b) == [TakeWord(LStrip(a))] + Words(AfterFirstWord(a) + sp + b)
    ensures Words(a) == [TakeWord(LStrip(a))] + Words(AfterFirstWord(a))
  {
    FirstWordOf(a);
    FirstWordBeforeSpace(a, sp + b);
    Regrouped(a, sp, b);
    Regrouped(AfterFirstWord(a), sp, b);
  }

  lemma Regrouped<T>(x: seq<T>, y: seq<T>, z: seq<T>)
    ensures x + y + z == x + (y + z)
  {
  }

  /** A text with a word in it: its first word, then the words after it. */
  lemma FirstWordOf(a: string)
    requires LStrip(a) != []
    ensures |AfterFirstWord(a)| < |a|
    ensures Words(a) == [TakeWord(LStrip(a))] + Words(AfterFirstWord(a))
  {
    var t := LStrip(a);
    WordsAfterLStrip(a, []);
    assert a + [] == a && t + [] == t;
    WordsFromWord(t);
  }

  /** The same, with whitespace and more text after it. */
  lemma FirstWordBeforeSpace(a: string, v: string)
    requires LStrip(a) != [] && v != [] && IsSpace(v[0])
    ensures Words(a + v) == [TakeWord(LStrip(a))] + Words(AfterFirstWord(a) + v)
  {
    var t := LStrip(a);
    WordsAfterLStrip(a, v);
    WordsFromWord(t);
    WordsBeforeSpace(t, v);
  }

  /** `all` is `w` then `x` then `y`, regrouped. */
  lemma Regroup<T>(all: seq<T>, tail: seq<T>, x: seq<T>, y: seq<T>, first: seq<T>, w: T)
    requires all == [w] + tail && tail == x + y && first == [w] + x
    ensures all == first + y
  {
  }

  /** Two words with any non-empty whitespace between them collapse to the
      two words around one space. */
  lemma CollapseTwoWords(w1: string, sp: string, w2: string)
    requires IsWord(w1) && IsWord(w2) && sp != [] && AllSpace(sp)
    ensures Collapse(w1 + sp + w2) == w1 + " " + w2
  {
    var ws := Words(w1 + sp + w2);
    WordsSplit(w1, sp, w2);
    WordsOfWord(w1);
    WordsOfWord(w2);
    assert ws == [w1] + [w2];
    assert ws[1..] == [w2];
    assert Join(ws[1..]) == w2;
    assert Join(ws) == w1 + " " + w2;
  }

  /** SQLite's `LIKE` folds the 26 ASCII letters and nothing else. */
  function LowerAscii(c: char): (d: char)
  {
    if 'A' <= c <= 'Z' then (c as int + 32) as char else c
  }

  function LowerAll(s: string): (r: string)
    ensures |r| == |s|
  {
    seq(|s|, i requires 0 <= i < |s| => LowerAscii(s[i]))
  }

  /** `t` occurs in `s` as a contiguous substring. */
  predicate Contains(s: string, t: string)
  {
    t <= s || (s != [] && Contains(s[1..], t))
  }

  /** `s LIKE '%t%'` for a term without wildcard characters. */
  predicate Like(s: string, t: string)
  {
    Contains(LowerAll(s), LowerAll(t))
  }

  lemma {:induction false} ContainsLonger(s: string, t: string)
    requires Contains(s, t)
    ensures |t| <= |s|
  {
    if !(t <= s) { ContainsLonger(s[1..], t); }
  }

  lemma {:induction false} LowerKeepsContains(s: string, t: string)
    requires Contains(s, t)
    ensures Contains(LowerAll(s), LowerAll(t))
  {
    var ls, lt := LowerAll(s), LowerAll(t);
    if t <= s {
      assert lt <= ls by {
        forall i | 0 <= i < |lt| ensures lt[i] == ls[i] {
          assert t[i] == s[i];
        }
      }
    } else {
      LowerKeepsContains(s[1..], t);
      assert LowerAll(s[1..]) == ls[1..];
    }
  }

  /** An exact occurrence is always a LIKE match. */
  lemma ContainsIsLike(s: string, t: string)
    requires Contains(s, t)
    ensures Like(s, t)
  {
    LowerKeepsContains(s, t);
  }

  /** An empty text matches no non-empty term: rows whose column is empty drop
      out of every active LIKE filter. */
  lemma EmptyNeverLike(t: string)
    requires t != []
    ensures !Like("", t)
  {
    if Like("", t) { ContainsLonger(LowerAll(""), LowerAll(t)); }
  }
}
