/** Python string primitives the core relies on: `str.strip()`, `str.split(sep)`,
    `str.split()`, `str.replace` of one character and `str.isdigit()`. */
module Text {
  import opened Seqs

  type String = seq<char>

  /** Python's whitespace (`Py_UNICODE_ISSPACE`), used alike by `strip()` and `split()`:
      U+0009..U+000D, U+001C..U+0020, U+0085, U+00A0, U+1680, U+2000..U+200A,
      U+2028, U+2029, U+202F, U+205F and U+3000. */
  const Whitespace: set<char> := {
    '\t', '\n', '\U{000B}', '\U{000C}', '\r',
    '\U{001C}', '\U{001D}', '\U{001E}', '\U{001F}', ' ',
    '\U{0085}', '\U{00A0}', '\U{1680}',
    '\U{2000}', '\U{2001}', '\U{2002}', '\U{2003}', '\U{2004}', '\U{2005}',
    '\U{2006}', '\U{2007}', '\U{2008}', '\U{2009}', '\U{200A}',
    '\U{2028}', '\U{2029}', '\U{202F}', '\U{205F}', '\U{3000}'
  }

  predicate IsSpace(c: char)
  {
    c in Whitespace
  }

  /** ASCII letters and digits are not whitespace. */
  lemma {:induction false} AlnumIsNotSpace(c: char)
    requires 'a' <= c <= 'z' || 'A' <= c <= 'Z' || '0' <= c <= '9'
    ensures !IsSpace(c)
  {
  }

  predicate IsDigit(c: char)
  {
    '0' <= c <= '9'
  }

  predicate AllSpace(s: String)
  {
    forall i :: 0 <= i < |s| ==> IsSpace(s[i])
  }

  predicate NoSpace(s: String)
  {
    forall i :: 0 <= i < |s| ==> !IsSpace(s[i])
  }

  predicate AllDigits(s: String)
  {
    forall i :: 0 <= i < |s| ==> IsDigit(s[i])
  }

  /** `str.isdigit()` restricted to ASCII: non-empty and every character a digit. */
  predicate IsNumeral(s: String)
  {
    |s| > 0 && AllDigits(s)
  }

  /** Neither end of `s` is whitespace. */
  predicate Trimmed(s: String)
  {
    |s| == 0 || (!IsSpace(s[0]) && !IsSpace(s[|s| - 1]))
  }

  /** A numeral has no whitespace, so in particular none at its ends. */
  lemma {:induction false} NumeralIsTrimmed(s: String)
    requires IsNumeral(s)
    ensures Trimmed(s)
  {
    assert IsDigit(s[0]) && IsDigit(s[|s| - 1]);
  }

  // ---------------------------------------------------------------------------
  // Searching

  /** Index of the first character satisfying `p`, or `|s|` when there is none. */
  function Find(s: String, p: char -> bool): (i: nat)
    ensures i <= |s|
    ensures forall k :: 0 <= k < i ==> !p(s[k])
    ensures i < |s| ==> p(s[i])
    decreases |s|
  {
    if |s| == 0 then 0 else if p(s[0]) then 0 else 1 + Find(s[1..], p)
  }

  /** The test "is the character `sep`", shared by every search for a separator. */
  function IsChar(sep: char): char -> bool
  {
    c => c == sep
  }

  lemma {:induction false} FindAbsent(s: String, p: char -> bool)
    requires forall k :: 0 <= k < |s| ==> !p(s[k])
    ensures Find(s, p) == |s|
    decreases |s|
  {
    if |s| > 0 {
      FindAbsent(s[1..], p);
    }
  }

  lemma {:induction false} FindAppend(a: String, b: String, p: char -> bool)
    ensures Find(a + b, p) == if Find(a, p) < |a| then Find(a, p) else |a| + Find(b, p)
    decreases |a|
  {
    if |a| == 0 {
      assert a + b == b;
    } else {
      assert (a + b)[0] == a[0];
      assert (a + b)[1..] == a[1..] + b;
      FindAppend(a[1..], b, p);
    }
  }

  // ---------------------------------------------------------------------------
  // str.strip()

  /** Python's `str.strip()`: whitespace is removed from both ends, one character
      at a time, until neither end is whitespace. */
  function Strip(s: String): (r: String)
    ensures Trimmed(r)
    ensures |r| <= |s|
    decreases |s|
  {
    if |s| > 0 && IsSpace(s[0]) then Strip(s[1..])
    else if |s| > 0 && IsSpace(s[|s| - 1]) then Strip(s[..|s| - 1])
    else s
  }

  /** `s == lead + r + trail` with `lead` and `trail` made of whitespace only. */
  ghost predicate Frames(s: String, r: String, i: nat)
  {
    i + |r| <= |s| && s[i..i + |r|] == r && AllSpace(s[..i]) && AllSpace(s[i + |r|..])
  }

  /** `strip()` keeps an infix: what it removes, at offset `i` in front and after
      the result, is whitespace only. */
  lemma {:induction false} StripFrames(s: String) returns (i: nat)
    ensures Frames(s, Strip(s), i)
    decreases |s|
  {
    if |s| > 0 && IsSpace(s[0]) {
      var j := StripFrames(s[1..]);
      assert s == [s[0]] + s[1..];
      FramesCons(s[0], s[1..], Strip(s), j);
      i := j + 1;
    } else if |s| > 0 && IsSpace(s[|s| - 1]) {
      i := StripFrames(s[..|s| - 1]);
      assert s == s[..|s| - 1] + [s[|s| - 1]];
      FramesSnoc(s[..|s| - 1], s[|s| - 1], Strip(s), i);
    } else {
      i := 0;
      assert s[0..|s|] == s;
    }
  }

  /** The last character of a non-empty stripped text is followed, in the input,
      by whitespace only: it is the input's last non-whitespace character. */
  lemma {:induction false} StripLast(s: String)
    ensures |Strip(s)| > 0 ==>
      exists j :: 0 <= j < |s| && s[j] == Strip(s)[|Strip(s)| - 1] && AllSpace(s[j + 1..])
  {
    var t := Strip(s);
    var i := StripFrames(s);
    if |t| > 0 {
      var j := i + |t| - 1;
      assert s[j] == s[i..i + |t|][|t| - 1];
      assert s[j + 1..] == s[i + |t|..];
    }
  }

  /** Whitespace put in front of a framed text widens the leading part of the frame. */
  lemma {:induction false} FramesCons(c: char, t: String, r: String, j: nat)
    requires IsSpace(c) && Frames(t, r, j)
    ensures Frames([c] + t, r, j + 1)
  {
    var s := [c] + t;
    assert s[j + 1..j + 1 + |r|] == t[j..j + |r|];
    assert s[j + 1 + |r|..] == t[j + |r|..];
    assert s[..j + 1] == [c] + t[..j];
  }

  /** Whitespace put after a framed text widens the trailing part of the frame. */
  lemma {:induction false} FramesSnoc(t: String, c: char, r: String, i: nat)
    requires IsSpace(c) && Frames(t, r, i)
    ensures Frames(t + [c], r, i)
  {
    var s := t + [c];
    assert s[i..i + |r|] == t[i..i + |r|];
    assert s[..i] == t[..i];
    assert s[i + |r|..] == t[i + |r|..] + [c];
  }

  /** Stripping is determined by its frame: whitespace around a trimmed core
      is removed, and nothing else is. */
  lemma {:induction false} StripFramed(lead: String, x: String, trail: String)
    requires AllSpace(lead) && AllSpace(trail) && Trimmed(x)
    ensures Strip(lead + x + trail) == x
    decreases |lead| + |trail|
  {
    var s := lead + x + trail;
    if |lead| > 0 {
      assert s[1..] == lead[1..] + x + trail;
      StripFramed(lead[1..], x, trail);
    } else if |trail| > 0 && |x| == 0 {
      assert s == trail;
      assert s[1..] == lead + x + trail[1..];
      StripFramed(lead, x, trail[1..]);
    } else if |trail| > 0 {
      assert s[0] == x[0];
      assert s[..|s| - 1] == lead + x + trail[..|trail| - 1];
      StripFramed(lead, x, trail[..|trail| - 1]);
    } else {
      assert s == x;
    }
  }

  /** A string with no whitespace at either end is left as it is. */
  lemma {:induction false} TrimmedStripsToItself(s: String)
    requires Trimmed(s)
    ensures Strip(s) == s
  {
    StripOfFrame(s, [], s, []);
  }

  /** `strip()` is idempotent, so the repeated trimming of codes and ids is harmless. */
  lemma {:induction false} StripIdempotent(s: String)
    ensures Strip(Strip(s)) == Strip(s)
  {
    TrimmedStripsToItself(Strip(s));
  }

  /** `strip()` removes only whitespace: every other character survives it. */
  lemma {:induction false} NonSpaceSurvivesStrip(s: String, p: nat)
    requires p < |s| && !IsSpace(s[p])
    ensures s[p] in Strip(s)
  {
    var r := Strip(s);
    var i := StripFrames(s);
    forall q | 0 <= q < i ensures IsSpace(s[q]) {
      assert s[..i][q] == s[q];
    }
    forall q | i + |r| <= q < |s| ensures IsSpace(s[q]) {
      assert s[i + |r|..][q - i - |r|] == s[q];
    }
    assert r[p - i] == s[p];
  }

  /** `strip()` adds nothing: every character it keeps comes from its argument. */
  lemma {:induction false} StripKeeps(s: String)
    ensures forall c :: c in Strip(s) ==> c in s
  {
    var r := Strip(s);
    var i := StripFrames(s);
    forall c | c in r ensures c in s {
      var k :| 0 <= k < |r| && r[k] == c;
      assert s[i + k] == c;
    }
  }

  /** A string strips to nothing exactly when it is all whitespace. */
  lemma {:induction false} StripBlank(s: String)
    ensures Strip(s) == [] <==> AllSpace(s)
  {
    if AllSpace(s) {
      StripOfFrame(s, s, [], []);
    } else {
      var p :| 0 <= p < |s| && !IsSpace(s[p]);
      NonSpaceSurvivesStrip(s, p);
    }
  }

  /** A final line break is whitespace: it does not change the stripped text. */
  lemma {:induction false} StripNewline(s: String)
    ensures Strip(s + ['\n']) == Strip(s)
  {
    var t := Strip(s);
    var i := StripFrames(s);
    var lead := s[..i];
    var trail := s[i + |t|..];
    SliceThree(s, i, i + |t|);
    AppendSpace(trail, '\n');
    assert s + ['\n'] == lead + t + (trail + ['\n']);
    StripOfFrame(s + ['\n'], lead, t, trail + ['\n']);
  }

  lemma {:induction false} AppendSpace(s: String, c: char)
    requires AllSpace(s) && IsSpace(c)
    ensures AllSpace(s + [c])
  {
  }

  lemma {:induction false} StripOfFrame(s: String, lead: String, x: String, trail: String)
    requires s == lead + x + trail
    requires AllSpace(lead) && AllSpace(trail) && Trimmed(x)
    ensures Strip(s) == x
  {
    StripFramed(lead, x, trail);
  }

  /** Python's `str.lstrip()`: the leading whitespace removed, the rest kept as is
      (StripStartFrame). */
  function StripStart(s: String): (r: String)
    ensures |r| <= |s|
    ensures |r| == 0 || !IsSpace(r[0])
    decreases |s|
  {
    if |s| > 0 && IsSpace(s[0]) then StripStart(s[1..]) else s
  }

  /** Python's `str.rstrip()`: the trailing whitespace removed, the rest kept as is
      (StripEndFrame). */
  function StripEnd(s: String): (r: String)
    ensures |r| <= |s|
    ensures |r| == 0 || !IsSpace(r[|r| - 1])
    decreases |s|
  {
    if |s| > 0 && IsSpace(s[|s| - 1]) then StripEnd(s[..|s| - 1]) else s
  }

  /** `lstrip()` removes a prefix made of whitespace and keeps the rest. */
  lemma {:induction false} StripStartFrame(s: String)
    ensures var k := |s| - |StripStart(s)|; StripStart(s) == s[k..] && AllSpace(s[..k])
    decreases |s|
  {
    if |s| > 0 && IsSpace(s[0]) {
      StripStartFrame(s[1..]);
      var k := |s| - |StripStart(s)|;
      assert s[1..][k - 1..] == s[k..];
      forall i | 0 < i < k ensures IsSpace(s[i]) {
        assert s[1..][..k - 1][i - 1] == s[i];
      }
      assert forall i :: 0 <= i < k ==> s[..k][i] == s[i];
    }
  }

  /** `rstrip()` removes a suffix made of whitespace and keeps the rest. */
  lemma {:induction false} StripEndFrame(s: String)
    ensures var k := |StripEnd(s)|; StripEnd(s) == s[..k] && AllSpace(s[k..])
    decreases |s|
  {
    if |s| > 0 && IsSpace(s[|s| - 1]) {
      var t := s[..|s| - 1];
      StripEndFrame(t);
      var k := |StripEnd(s)|;
      assert t[..k] == s[..k];
      forall i | k <= i < |s| ensures IsSpace(s[i]) {
        if i < |s| - 1 {
          assert t[k..][i - k] == s[i];
        }
      }
      assert forall i :: k <= i < |s| ==> s[k..][i - k] == s[i];
    }
  }

  /** A non-whitespace character keeps `lstrip()` and `rstrip()` from emptying a string. */
  lemma {:induction false} StripEndsKeepMark(s: String, p: nat)
    requires p < |s| && !IsSpace(s[p])
    ensures |StripStart(s)| > 0 && |StripEnd(s)| > 0
  {
    StripStartFrame(s);
    StripEndFrame(s);
  }

  // ---------------------------------------------------------------------------
  // str.split(sep) and its inverse sep.join(...)

  /** Python's `s.split(sep)` for a one-character separator: the pieces between
      separators, one more piece than there are separators. */
  function Split(s: String, sep: char): (r: seq<String>)
    ensures |r| >= 1
    ensures forall k :: 0 <= k < |r| ==> sep !in r[k]
    decreases |s|
  {
    var i := Find(s, IsChar(sep));
    if i == |s| then
      assert forall k :: 0 <= k < |s| ==> s[k] != sep;
      [s]
    else
      assert forall k :: 0 <= k < i ==> s[..i][k] != sep;
      [s[..i]] + Split(s[i + 1..], sep)
  }

  /** Python's `sep.join(ps)`. */
  function Join(ps: seq<String>, sep: char): String
    requires |ps| >= 1
  {
    if |ps| == 1 then ps[0] else ps[0] + [sep] + Join(ps[1..], sep)
  }

  /** The joined text starts with the first piece. */
  lemma {:induction false} JoinStartsWithFirst(ps: seq<String>, sep: char)
    requires |ps| >= 1
    ensures |Join(ps, sep)| >= |ps[0]|
    ensures forall p :: 0 <= p < |ps[0]| ==> Join(ps, sep)[p] == ps[0][p]
  {
    if |ps| > 1 {
      assert Join(ps, sep) == ps[0] + ([sep] + Join(ps[1..], sep));
    }
  }

  /** Joining the pieces gives back the text: splitting loses nothing. */
  lemma {:induction false} JoinSplit(s: String, sep: char)
    ensures Join(Split(s, sep), sep) == s
    decreases |s|
  {
    var i := Find(s, IsChar(sep));
    if i < |s| {
      var rest := s[i + 1..];
      var ps := Split(s, sep);
      assert ps == [s[..i]] + Split(rest, sep);
      assert ps[1..] == Split(rest, sep);
      JoinSplit(rest, sep);
      assert Join(ps, sep) == s[..i] + [sep] + rest;
      assert s[i] == sep;
      SliceThree(s, i, i + 1);
      assert s[i..i + 1] == [sep];
    }
  }

  /** Splitting a join of separator-free pieces gives back the pieces. */
  lemma {:induction false} SplitJoin(ps: seq<String>, sep: char)
    requires |ps| >= 1
    requires forall k :: 0 <= k < |ps| ==> sep !in ps[k]
    ensures Split(Join(ps, sep), sep) == ps
    decreases |ps|
  {
    if |ps| == 1 {
      SplitWhole(ps[0], sep);
    } else {
      var rest := Join(ps[1..], sep);
      assert Join(ps, sep) == ps[0] + [sep] + rest;
      assert Split(rest, sep) == ps[1..] by {
        SplitJoin(ps[1..], sep);
      }
      SplitCons(ps[0], rest, sep);
      assert [ps[0]] + ps[1..] == ps;
    }
  }

  /** A text without the separator is a single piece. */
  lemma {:induction false} SplitWhole(s: String, sep: char)
    requires sep !in s
    ensures Split(s, sep) == [s]
  {
    FindAbsent(s, IsChar(sep));
  }

  /** The first separator ends the first piece. */
  lemma {:induction false} SplitCons(a: String, rest: String, sep: char)
    requires sep !in a
    ensures Split(a + [sep] + rest, sep) == [a] + Split(rest, sep)
  {
    var p := IsChar(sep);
    var s := a + [sep] + rest;
    assert Find(s, p) == |a| by {
      FindAbsent(a, p);
      FindAppend(a, [sep] + rest, p);
      assert a + ([sep] + rest) == s;
    }
    assert s[..|a|] == a;
    assert s[|a| + 1..] == rest;
  }

  /** A separator in the text cuts it into two independent halves. */
  lemma {:induction false} SplitAtSeparator(a: String, b: String, sep: char)
    ensures Split(a + [sep] + b, sep) == Split(a, sep) + Split(b, sep)
  {
    var pa := Split(a, sep);
    var pb := Split(b, sep);
    JoinSplit(a, sep);
    JoinSplit(b, sep);
    JoinAppend(pa, pb, sep);
    SplitJoin(pa + pb, sep);
  }

  lemma {:induction false} JoinAppend(pa: seq<String>, pb: seq<String>, sep: char)
    requires |pa| >= 1 && |pb| >= 1
    ensures Join(pa + pb, sep) == Join(pa, sep) + [sep] + Join(pb, sep)
    decreases |pa|
  {
    if |pa| == 1 {
      assert (pa + pb)[1..] == pb;
    } else {
      assert (pa + pb)[1..] == pa[1..] + pb;
      JoinAppend(pa[1..], pb, sep);
    }
  }

  /** Only the first and the last piece of a join touch its ends: the middle is the
      join of the inner pieces between two separators. */
  lemma {:induction false} JoinEnds(x: String, m: seq<String>, y: String, sep: char)
    ensures Join([x] + m + [y], sep) == x + Join([[]] + m + [[]], sep) + y
  {
    assert ([x] + m + [y])[1..] == m + [y];
    assert ([[]] + m + [[]])[1..] == m + [[]];
    JoinSnoc(m, y, sep);
  }

  /** Stripping a join of pieces whose ends carry non-whitespace strips only the
      front of the first piece and the back of the last. */
  lemma {:induction false} StripJoinEnds(ps: seq<String>, sep: char, p: nat, q: nat)
    requires |ps| > 1
    requires p < |ps[0]| && !IsSpace(ps[0][p]) && q < |ps[|ps| - 1]| && !IsSpace(ps[|ps| - 1][q])
    ensures Strip(Join(ps, sep)) == Join(ps[0 := StripStart(ps[0])][|ps| - 1 := StripEnd(ps[|ps| - 1])], sep)
  {
    var a, m, b := ps[0], ps[1..|ps| - 1], ps[|ps| - 1];
    assert ps == [a] + m + [b];
    assert ps[0 := StripStart(a)][|ps| - 1 := StripEnd(b)] == [StripStart(a)] + m + [StripEnd(b)];
    StripJoinPieces(a, m, b, sep, p, q);
  }

  lemma {:induction false} StripJoinPieces(a: String, m: seq<String>, b: String, sep: char, p: nat, q: nat)
    requires p < |a| && !IsSpace(a[p]) && q < |b| && !IsSpace(b[q])
    ensures Strip(Join([a] + m + [b], sep)) == Join([StripStart(a)] + m + [StripEnd(b)], sep)
  {
    var c := Join([[]] + m + [[]], sep);
    JoinEnds(a, m, b, sep);
    JoinEnds(StripStart(a), m, StripEnd(b), sep);
    StripAroundEnds(a, c, b, p, q);
  }

  /** When `a` and `b` hold non-whitespace, `strip()` of `a + c + b` is `lstrip()`
      of `a`, then `c`, then `rstrip()` of `b`. */
  lemma {:induction false} StripAroundEnds(a: String, c: String, b: String, p: nat, q: nat)
    requires p < |a| && !IsSpace(a[p]) && q < |b| && !IsSpace(b[q])
    ensures Strip(a + c + b) == StripStart(a) + c + StripEnd(b)
  {
    var x, y := StripStart(a), StripEnd(b);
    StripEndsKeepMark(a, p);
    StripEndsKeepMark(b, q);
    StripStartFrame(a);
    StripEndFrame(b);
    var lead, trail := a[..|a| - |x|], b[|y|..];
    assert a == lead + x && b == y + trail;
    StripAroundMiddle(lead, x, c, y, trail);
  }

  /** Whitespace around `x + c + y`, where `x` starts and `y` ends with
      non-whitespace, is exactly what `strip()` removes. */
  lemma {:induction false} StripAroundMiddle(lead: String, x: String, c: String, y: String, trail: String)
    requires AllSpace(lead) && AllSpace(trail)
    requires |x| > 0 && !IsSpace(x[0]) && |y| > 0 && !IsSpace(y[|y| - 1])
    ensures Strip((lead + x) + c + (y + trail)) == x + c + y
  {
    var t := x + c + y;
    assert (lead + x) + c + (y + trail) == lead + t + trail;
    assert t[0] == x[0] && t[|t| - 1] == y[|y| - 1];
    StripOfFrame(lead + t + trail, lead, t, trail);
  }

  /** `lstrip()` and `rstrip()` add no character. */
  lemma {:induction false} StripEndsOmit(s: String, c: char)
    requires c !in s
    ensures c !in StripStart(s) && c !in StripEnd(s)
  {
    StripStartFrame(s);
    StripEndFrame(s);
  }

  lemma {:induction false} JoinSnoc(m: seq<String>, y: String, sep: char)
    ensures Join(m + [y], sep) == Join(m + [[]], sep) + y
    decreases |m|
  {
    if |m| == 0 {
      assert m + [y] == [y];
      assert m + [[]] == [[]];
    } else {
      assert (m + [y])[1..] == m[1..] + [y];
      assert (m + [[]])[1..] == m[1..] + [[]];
      JoinSnoc(m[1..], y, sep);
    }
  }

  // ---------------------------------------------------------------------------
  // str.split() with no argument

  /** Python's `s.split()`: the maximal runs of non-whitespace, in order. */
  function Words(s: String): seq<String>
    decreases |s|
  {
    if |s| == 0 then []
    else if IsSpace(s[0]) then Words(s[1..])
    else
      var k := Find(s, IsSpace);
      [s[..k]] + Words(s[k..])
  }

  /** Every word is a non-empty run without whitespace. */
  lemma {:induction false} WordsNonEmpty(s: String)
    ensures forall k :: 0 <= k < |Words(s)| ==> |Words(s)[k]| > 0 && NoSpace(Words(s)[k])
    decreases |s|
  {
    if |s| == 0 {
    } else if IsSpace(s[0]) {
      WordsNonEmpty(s[1..]);
    } else {
      var k := Find(s, IsSpace);
      WordsNonEmpty(s[k..]);
      assert Words(s) == [s[..k]] + Words(s[k..]);
    }
  }

  /** A single run of non-whitespace is one word. */
  lemma {:induction false} WordsOfWord(t: String)
    requires |t| > 0 && NoSpace(t)
    ensures Words(t) == [t]
  {
    FindAbsent(t, IsSpace);
    var k := Find(t, IsSpace);
    assert t[..k] == t && t[k..] == [];
  }

  /** Text made of whitespace only has no words, and only such text has none. */
  lemma {:induction false} WordsBlank(s: String)
    ensures Words(s) == [] <==> AllSpace(s)
    decreases |s|
  {
    if |s| > 0 && IsSpace(s[0]) {
      WordsBlank(s[1..]);
      assert AllSpace(s) <==> AllSpace(s[1..]);
    }
  }

  /** A whitespace character separates the words before it from those after it. */
  lemma {:induction false} WordsAtSpace(a: String, c: char, b: String)
    requires IsSpace(c)
    ensures Words(a + [c] + b) == Words(a) + Words(b)
    decreases |a|
  {
    if |a| == 0 {
      assert a + [c] + b == [c] + b;
      WordsSpaceCons(c, b);
    } else if IsSpace(a[0]) {
      WordsAtSpace(a[1..], c, b);
      WordsAtSpaceAfterSpace(a, c, b);
    } else {
      WordsAtSpace(a[Find(a, IsSpace)..], c, b);
      WordsAtSpaceAfterWord(a, c, b);
    }
  }

  /** The step of `WordsAtSpace` for a text that starts with whitespace. */
  lemma {:induction false} WordsAtSpaceAfterSpace(a: String, c: char, b: String)
    requires IsSpace(c) && |a| > 0 && IsSpace(a[0])
    requires Words(a[1..] + [c] + b) == Words(a[1..]) + Words(b)
    ensures Words(a + [c] + b) == Words(a) + Words(b)
  {
    var a' := a[1..];
    assert a + [c] + b == [a[0]] + (a' + [c] + b);
    WordsSpaceCons(a[0], a' + [c] + b);
    assert a == [a[0]] + a';
    WordsSpaceCons(a[0], a');
  }

  /** The step of `WordsAtSpace` for a text that starts with a word. */
  lemma {:induction false} WordsAtSpaceAfterWord(a: String, c: char, b: String)
    requires IsSpace(c) && |a| > 0 && !IsSpace(a[0])
    requires Words(a[Find(a, IsSpace)..] + [c] + b) == Words(a[Find(a, IsSpace)..]) + Words(b)
    ensures Words(a + [c] + b) == Words(a) + Words(b)
  {
    var k := Find(a, IsSpace);
    var w, tail := a[..k], a[k..];
    assert |w| > 0 && NoSpace(w) && (|tail| == 0 || IsSpace(tail[0]));
    assert a == w + tail;
    WordsConsThen(w, tail, c, b);
    var x, y := Words(tail), Words(b);
    assert Words(a) + y == [w] + (x + y) by {
      WordsCons(w, tail);
      assert ([w] + x) + y == [w] + (x + y);
    }
  }

  /** The word in front of a text stays the first word when more text follows. */
  lemma {:induction false} WordsConsThen(w: String, tail: String, c: char, b: String)
    requires IsSpace(c) && |w| > 0 && NoSpace(w) && (|tail| == 0 || IsSpace(tail[0]))
    ensures Words(w + tail + [c] + b) == [w] + Words(tail + [c] + b)
  {
    assert w + tail + [c] + b == w + (tail + [c] + b);
    WordsCons(w, tail + [c] + b);
  }

  /** A leading whitespace character adds no word. */
  lemma {:induction false} WordsSpaceCons(c: char, rest: String)
    requires IsSpace(c)
    ensures Words([c] + rest) == Words(rest)
  {
    assert ([c] + rest)[1..] == rest;
  }

  /** A word followed by whitespace, or by nothing, is the first word. */
  lemma {:induction false} WordsCons(w: String, rest: String)
    requires |w| > 0 && NoSpace(w)
    requires |rest| == 0 || IsSpace(rest[0])
    ensures Words(w + rest) == [w] + Words(rest)
  {
    var s := w + rest;
    assert Find(s, IsSpace) == |w| by {
      FindAbsent(w, IsSpace);
      FindAppend(w, rest, IsSpace);
    }
    assert s[0] == w[0];
    assert s[..|w|] == w && s[|w|..] == rest;
  }

  lemma {:induction false} WordsLeadingSpace(lead: String, x: String)
    requires AllSpace(lead)
    ensures Words(lead + x) == Words(x)
    decreases |lead|
  {
    if |lead| > 0 {
      var e: String := [];
      assert lead + x == e + [lead[0]] + (lead[1..] + x);
      WordsAtSpace(e, lead[0], lead[1..] + x);
      assert Words(e) == [];
      WordsLeadingSpace(lead[1..], x);
    } else {
      assert lead + x == x;
    }
  }

  lemma {:induction false} WordsTrailingSpace(x: String, trail: String)
    requires AllSpace(trail)
    ensures Words(x + trail) == Words(x)
  {
    if |trail| > 0 {
      assert x + trail == x + [trail[0]] + trail[1..];
      WordsAtSpace(x, trail[0], trail[1..]);
      WordsBlank(trail[1..]);
      assert Words(x) + Words(trail[1..]) == Words(x);
    } else {
      assert x + trail == x;
    }
  }

  /** Whitespace around a text adds no words. */
  lemma {:induction false} WordsOfFrame(lead: String, x: String, trail: String)
    requires AllSpace(lead) && AllSpace(trail)
    ensures Words(lead + x + trail) == Words(x)
  {
    assert lead + x + trail == lead + (x + trail);
    WordsTrailingSpace(x, trail);
    WordsLeadingSpace(lead, x + trail);
  }

  /** `line.strip().split()` tokenises like `line.split()`: the strip is redundant. */
  lemma {:induction false} WordsOfStrip(s: String)
    ensures Words(Strip(s)) == Words(s)
  {
    var r := Strip(s);
    var i := StripFrames(s);
    SliceThree(s, i, i + |r|);
    WordsOfFrame(s[..i], r, s[i + |r|..]);
  }

  // ---------------------------------------------------------------------------
  // str.replace(a, b) for single characters

  /** Python's `s.replace(a, b)` where both are one character long. */
  function ReplaceChar(s: String, a: char, b: char): (r: String)
    ensures |r| == |s|
    ensures forall i :: 0 <= i < |s| ==> r[i] == (if s[i] == a then b else s[i])
    decreases |s|
  {
    if |s| == 0 then [] else [if s[0] == a then b else s[0]] + ReplaceChar(s[1..], a, b)
  }
}
