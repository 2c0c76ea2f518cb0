/** How a stored command appears in the command list: its text on one line,
    whitespace collapsed, cut to 80 characters. */
module Display {
  import opened Text

  const MaxWidth := 80
  const KeptWidth := 77
  const Ellipsis := "..."

  /** `.replace('\n', ' ').replace('\r', ' ')`. */
  function ReplaceLineBreaks(s: string): (r: string)
    ensures |r| == |s|
  {
    seq(|s|, i requires 0 <= i < |s| => if s[i] == '\n' || s[i] == '\r' then ' ' else s[i])
  }

  predicate NoLineBreak(s: string)
  {
    forall i | 0 <= i < |s| :: s[i] != '\n' && s[i] != '\r'
  }

  /** The one-line text shown in the list for a stored command text. */
  function FormatCommand(text: string): string
  {
    var c := Collapse(ReplaceLineBreaks(text));
    if |c| > MaxWidth then c[..KeptWidth] + Ellipsis else c
  }

  /** The displayed text is a single line of at most 80 characters, with no
      leading or trailing whitespace and no two adjacent spaces; it is the
      collapsed text itself when that fits, and otherwise the collapsed text's
      first 77 characters followed by "...". */
  lemma FormatCommandShape(text: string)
    ensures var r := FormatCommand(text);
      && |r| <= MaxWidth
      && NoLineBreak(r)
      && (r == [] || (!IsSpace(r[0]) && !IsSpace(r[|r| - 1])))
      && (forall i | 0 <= i < |r| - 1 :: !(r[i] == ' ' && r[i + 1] == ' '))
    ensures var c := Collapse(ReplaceLineBreaks(text)); var r := FormatCommand(text);
      && (|c| <= MaxWidth ==> r == c)
      && (|c| > MaxWidth ==> |r| == MaxWidth && r[..KeptWidth] == c[..KeptWidth] && r[KeptWidth..] == Ellipsis)
  {
    var c := Collapse(ReplaceLineBreaks(text));
    CollapseCollapsed(ReplaceLineBreaks(text));
    var r := FormatCommand(text);
    if |c| > MaxWidth {
      assert r == c[..KeptWidth] + Ellipsis;
      forall i | 0 <= i < |r| ensures r[i] != '\n' && r[i] != '\r' {
        if i < KeptWidth { assert r[i] == c[i]; }
      }
      assert r[0] == c[0];
      forall i | 0 <= i < |r| - 1 ensures !(r[i] == ' ' && r[i + 1] == ' ') {
        if i < KeptWidth - 1 { assert r[i] == c[i] && r[i + 1] == c[i + 1]; }
      }
    }
  }

  /** Collapsing already turns line breaks into separators, so the explicit
      replacement before it never changes the displayed text. */
  lemma ReplaceLineBreaksRedundant(s: string)
    ensures Collapse(ReplaceLineBreaks(s)) == Collapse(s)
  {
    SameWords(ReplaceLineBreaks(s), s);
  }

  /** Three words with whitespace runs between them collapse to the three
      words separated by single spaces. */
  lemma CollapseThreeWords(w1: string, s1: string, w2: string, s2: string, w3: string)
    requires IsWord(w1) && IsWord(w2) && IsWord(w3)
    requires s1 != [] && AllSpace(s1) && s2 != [] && AllSpace(s2)
    ensures Collapse(w1 + s1 + w2 + s2 + w3) == w1 + " " + w2 + " " + w3
  {
    WordsThree(w1, s1, w2, s2, w3);
    JoinThree(w1, w2, w3);
  }

  lemma WordsThree(w1: string, s1: string, w2: string, s2: string, w3: string)
    requires IsWord(w1) && IsWord(w2) && IsWord(w3)
    requires s1 != [] && AllSpace(s1) && s2 != [] && AllSpace(s2)
    ensures Words(w1 + s1 + w2 + s2 + w3) == [w1, w2, w3]
  {
    var tail := w2 + s2 + w3;
    assert w1 + s1 + w2 + s2 + w3 == w1 + s1 + tail;
    WordsTwo(w2, s2, w3);
    WordsSplit(w1, s1, tail);
    WordsOfWord(w1);
    PrependOne(Words(w1 + s1 + tail), Words(w1), Words(tail), w1, w2, w3);
  }

  lemma WordsTwo(w1: string, sp: string, w2: string)
    requires IsWord(w1) && IsWord(w2) && sp != [] && AllSpace(sp)
    ensures Words(w1 + sp + w2) == [w1, w2]
  {
    WordsSplit(w1, sp, w2);
    WordsOfWord(w1);
    WordsOfWord(w2);
  }

  lemma PrependOne<T>(all: seq<T>, first: seq<T>, rest: seq<T>, x: T, y: T, z: T)
    requires all == first + rest && first == [x] && rest == [y, z]
    ensures all == [x, y, z]
  {
  }

  lemma JoinThree(w1: string, w2: string, w3: string)
    ensures Join([w1, w2, w3]) == w1 + " " + w2 + " " + w3
  {
    var ws := [w1, w2, w3];
    assert ws[1..] == [w2, w3] && ws[1..][1..] == [w3];
    assert Join([w2, w3]) == w2 + " " + w3;
  }

  /** A command typed over several lines shows on one line, each run of
      whitespace between its words turned into one space. */
  lemma FormatMultiLineExample()
    ensures FormatCommand("ls -la\n\n  /tmp") == "ls -la /tmp"
  {
    var s := "ls -la\n\n  /tmp";
    var parts := "ls" + " " + "-la" + "\n\n  " + "/tmp";
    var joined := "ls" + " " + "-la" + " " + "/tmp";
    assert s == parts;
    assert joined == "ls -la /tmp";
    assert IsWord("ls") && IsWord("-la") && IsWord("/tmp");
    assert AllSpace(" ") && AllSpace("\n\n  ");
    CollapseThreeWords("ls", " ", "-la", "\n\n  ", "/tmp");
    assert Collapse(parts) == joined;
    ReplaceLineBreaksRedundant(s);
    var c := Collapse(ReplaceLineBreaks(s));
    assert c == Collapse(s);
    assert c == "ls -la /tmp";
    assert |c| <= MaxWidth;
  }

  /** Two strings of the same length with whitespace in the same places and
      the same characters elsewhere. */
  predicate Alike(a: string, b: string)
  {
    && |a| == |b|
    && forall i | 0 <= i < |a| :: (IsSpace(a[i]) <==> IsSpace(b[i])) && (!IsSpace(a[i]) ==> a[i] == b[i])
  }

  lemma AlikeSuffix(a: string, b: string, k: nat)
    requires Alike(a, b) && k <= |a|
    ensures Alike(a[k..], b[k..])
  {
    forall i | 0 <= i < |a| - k ensures a[k..][i] == a[k + i] && b[k..][i] == b[k + i] { }
  }

  /** Alike strings split into the same words. */
  lemma {:induction false} SameWords(a: string, b: string)
    requires Alike(a, b)
    ensures Words(a) == Words(b)
    decreases |a|
  {
    var ta, tb := LStrip(a), LStrip(b);
    SameLStrip(a, b);
    AlikeSuffix(a, b, |a| - |ta|);
    if ta != [] {
      var wa, wb := TakeWord(ta), TakeWord(tb);
      SameTakeWord(ta, tb);
      AlikeSuffix(ta, tb, |wa|);
      SameWords(ta[|wa|..], tb[|wb|..]);
      assert Words(a) == [wa] + Words(ta[|wa|..]);
      assert Words(b) == [wb] + Words(tb[|wb|..]);
    } else {
      assert Words(a) == [] && Words(b) == [];
    }
  }

  lemma {:induction false} SameLStrip(a: string, b: string)
    requires Alike(a, b)
    ensures |LStrip(a)| == |LStrip(b)|
  {
    if a != [] && IsSpace(a[0]) {
      AlikeSuffix(a, b, 1);
      SameLStrip(a[1..], b[1..]);
    }
  }

  lemma {:induction false} SameTakeWord(a: string, b: string)
    requires Alike(a, b)
    ensures TakeWord(a) == TakeWord(b)
  {
    if a != [] && !IsSpace(a[0]) {
      AlikeSuffix(a, b, 1);
      SameTakeWord(a[1..], b[1..]);
    }
  }
}
