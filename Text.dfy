/** The string operations the application relies on: Python's `str.strip()`,
    `str.split(sep)`, `str.replace` and `str.lower()`, and SQLite's ASCII-only
    `LOWER()` (which is also the folding of `COLLATE NOCASE`). */
module Text {

  /** The characters Python's `str.strip()` removes when given no argument. */
  predicate IsSpace(c: char) {
    c == ' ' || '\t' <= c <= '\r' || '\U{1C}' <= c <= '\U{1F}'
    || c == '\U{85}' || c == '\U{A0}' || c == '\U{1680}'
    || '\U{2000}' <= c <= '\U{200A}' || c == '\U{2028}' || c == '\U{2029}'
    || c == '\U{202F}' || c == '\U{205F}' || c == '\U{3000}'
  }

  /** Only whitespace (the empty text included). */
  predicate IsBlank(s: string) {
    s == [] || (IsSpace(s[0]) && IsBlank(s[1..]))
  }

  lemma {:induction false} BlankConcat(a: string, b: string)
    ensures IsBlank(a + b) <==> IsBlank(a) && IsBlank(b)
  {
    if a == [] {
      assert a + b == b;
    } else {
      assert (a + b)[1..] == a[1..] + b;
      BlankConcat(a[1..], b);
    }
  }

  lemma {:induction false} BlankAt(s: string, i: nat)
    requires IsBlank(s) && i < |s|
    ensures IsSpace(s[i])
  {
    if i > 0 { BlankAt(s[1..], i - 1); }
  }

  /** Drops the leading whitespace: what is kept is empty or starts with a
      non-space. */
  function TrimLeft(s: string): (r: string)
    ensures |r| <= |s|
    ensures r == [] || !IsSpace(r[0])
  {
    if s != [] && IsSpace(s[0]) then TrimLeft(s[1..]) else s
  }

  /** What TrimLeft keeps is a suffix of `s`, and what it drops is blank. */
  lemma {:induction false} TrimLeftFrame(s: string)
    ensures var r := TrimLeft(s); r == s[|s| - |r|..] && IsBlank(s[..|s| - |r|])
  {
    if s != [] && IsSpace(s[0]) {
      TrimLeftFrame(s[1..]);
      var r := TrimLeft(s[1..]);
      assert s[..|s| - |r|][1..] == s[1..][..|s| - 1 - |r|];
    } else {
      assert s[..0] == [];
    }
  }

  /** Drops the trailing whitespace: what is kept is empty or ends with a
      non-space. */
  function TrimRight(s: string): (r: string)
    ensures |r| <= |s|
    ensures r == [] || !IsSpace(r[|r| - 1])
  {
    if s != [] && IsSpace(s[|s| - 1]) then TrimRight(s[..|s| - 1]) else s
  }

  /** What TrimRight keeps is a prefix of `s`, and what it drops is blank. */
  lemma {:induction false} TrimRightFrame(s: string)
    ensures var r := TrimRight(s); r == s[..|r|] && IsBlank(s[|r|..])
  {
    if s != [] && IsSpace(s[|s| - 1]) {
      TrimRightFrame(s[..|s| - 1]);
      var r := TrimRight(s[..|s| - 1]);
      assert s[|r|..] == s[..|s| - 1][|r|..] + [s[|s| - 1]];
      BlankConcat(s[..|s| - 1][|r|..], [s[|s| - 1]]);
      assert [s[|s| - 1]][1..] == [];
    } else {
      assert s[|s|..] == [];
    }
  }

  /** Python's `s.strip()`: the text between the leading and the trailing
      whitespace. It is empty exactly when `s` is blank, and otherwise starts
      and ends with a non-space. */
  function Strip(s: string): (r: string)
    ensures |r| <= |s|
    ensures IsBlank(s) <==> r == []
    ensures r == [] || (!IsSpace(r[0]) && !IsSpace(r[|r| - 1]))
  {
    var t := TrimLeft(s);
    var r := TrimRight(t);
    StripFacts(s, t, r);
    r
  }

  lemma StripFacts(s: string, t: string, r: string)
    requires t == TrimLeft(s) && r == TrimRight(t)
    ensures IsBlank(s) <==> r == []
    ensures r == [] || !IsSpace(r[0])
  {
    TrimLeftFrame(s);
    TrimRightFrame(t);
    assert s == s[..|s| - |t|] + t;
    BlankConcat(s[..|s| - |t|], t);
    if r == [] {
      assert t[|r|..] == t;
    } else {
      assert r[0] == t[0];
    }
  }

  /** `s` is its stripped text framed by blank text on both sides. */
  lemma StripFrame(s: string) returns (i: nat)
    ensures i + |Strip(s)| <= |s|
    ensures s == s[..i] + Strip(s) + s[i + |Strip(s)|..]
    ensures IsBlank(s[..i]) && IsBlank(s[i + |Strip(s)|..])
  {
    var t := TrimLeft(s);
    var r := TrimRight(t);
    TrimLeftFrame(s);
    TrimRightFrame(t);
    i := |s| - |t|;
    assert r == Strip(s);
    FrameOf(s, t, r, i);
  }

  lemma FrameOf(s: string, t: string, r: string, i: nat)
    requires i <= |s| && t == s[i..] && |r| <= |t| && r == t[..|r|]
    ensures i + |r| <= |s| && s == s[..i] + r + s[i + |r|..]
    ensures s[i + |r|..] == t[|r|..]
  {
    assert s == s[..i] + s[i..];
    assert t == t[..|r|] + t[|r|..];
  }

  /** Text without outer whitespace is its own stripped form. */
  lemma StripKeeps(s: string)
    requires s != [] && !IsSpace(s[0]) && !IsSpace(s[|s| - 1])
    ensures Strip(s) == s
  {
  }

  lemma StripIdempotent(s: string)
    ensures Strip(Strip(s)) == Strip(s)
  {
  }

  /** Leading whitespace never changes the stripped text. */
  lemma StripConsSpace(c: char, s: string)
    requires IsSpace(c)
    ensures Strip([c] + s) == Strip(s)
  {
    assert ([c] + s)[1..] == s;
  }

  lemma {:induction false} TrimLeftSnoc(s: string, c: char)
    ensures TrimLeft(s + [c]) == if IsBlank(s) && IsSpace(c) then [] else TrimLeft(s) + [c]
  {
    if s == [] {
      assert [] + [c] == [c];
      assert [c][1..] == [];
    } else {
      assert (s + [c])[1..] == s[1..] + [c];
      if IsSpace(s[0]) {
        TrimLeftSnoc(s[1..], c);
      }
    }
  }

  /** Trailing whitespace never changes the stripped text. */
  lemma StripSnocSpace(s: string, c: char)
    requires IsSpace(c)
    ensures Strip(s + [c]) == Strip(s)
  {
    TrimLeftSnoc(s, c);
    if !IsBlank(s) {
      var t := TrimLeft(s);
      assert (t + [c])[..|t + [c]| - 1] == t;
    }
  }

  /** Python's `s.split(sep)` for a one-character separator: the maximal
      separator-free pieces, so there is always at least one piece. */
  function Split(s: string, sep: char): (parts: seq<string>)
    ensures |parts| >= 1
    ensures forall k :: 0 <= k < |parts| ==> sep !in parts[k]
  {
    if s == [] then [[]]
    else
      var rest := Split(s[1..], sep);
      if s[0] == sep then [[]] + rest
      else [[s[0]] + rest[0]] + rest[1..]
  }

  /** Python's `sep.join(parts)`. */
  function Join(parts: seq<string>, sep: char): string {
    if parts == [] then []
    else if |parts| == 1 then parts[0]
    else parts[0] + [sep] + Join(parts[1..], sep)
  }

  /** Splitting loses nothing: joining the pieces gives the text back. */
  lemma {:induction false} JoinSplit(s: string, sep: char)
    ensures Join(Split(s, sep), sep) == s
  {
    if s != [] {
      var rest := Split(s[1..], sep);
      JoinSplit(s[1..], sep);
      if s[0] == sep {
        assert Split(s, sep)[1..] == rest;
      } else {
        var parts := Split(s, sep);
        if |rest| == 1 {
          assert parts == [[s[0]] + rest[0]];
        } else {
          assert parts[1..] == rest[1..];
          assert Join(rest, sep) == rest[0] + [sep] + Join(rest[1..], sep);
        }
        assert s == [s[0]] + s[1..];
      }
    }
  }

  /** Splitting undoes joining separator-free pieces. */
  lemma {:induction false} SplitJoin(parts: seq<string>, sep: char)
    requires |parts| >= 1
    requires forall k :: 0 <= k < |parts| ==> sep !in parts[k]
    ensures Split(Join(parts, sep), sep) == parts
  {
    if |parts| == 1 {
      SplitFree(parts[0], sep);
    } else {
      SplitJoin(parts[1..], sep);
      SplitPrefix(parts[0], Join(parts[1..], sep), sep);
      assert parts == [parts[0]] + parts[1..];
    }
  }

  /** A separator-free text is one piece. */
  lemma {:induction false} SplitFree(s: string, sep: char)
    requires sep !in s
    ensures Split(s, sep) == [s]
  {
    if s != [] {
      SplitFree(s[1..], sep);
      assert s == [s[0]] + s[1..];
    }
  }

  lemma {:induction false} SplitPrefix(p: string, s: string, sep: char)
    requires sep !in p
    ensures Split(p + [sep] + s, sep) == [p] + Split(s, sep)
  {
    if p == [] {
      assert ([] + [sep] + s)[1..] == s;
    } else {
      assert (p + [sep] + s)[1..] == p[1..] + [sep] + s;
      SplitPrefix(p[1..], s, sep);
      assert p == [p[0]] + p[1..];
    }
  }

  /** How one more character at the end changes the pieces: a separator opens
      an empty last piece, any other character extends the last piece. */
  function SnocPieces(p: seq<string>, c: char, sep: char): seq<string>
    requires |p| >= 1
  {
    if c == sep then p + [[]] else p[..|p| - 1] + [p[|p| - 1] + [c]]
  }

  /** The pieces of `[x] + s`, given the pieces of `s`, when `x` is no separator. */
  function ExtendFirst(x: char, p: seq<string>): seq<string>
    requires |p| >= 1
  {
    [[x] + p[0]] + p[1..]
  }

  lemma SnocPiecesCons(x: string, q: seq<string>, c: char, sep: char)
    requires |q| >= 1
    ensures SnocPieces([x] + q, c, sep) == [x] + SnocPieces(q, c, sep)
  {
    if c != sep {
      assert ([x] + q)[..|q|] == [x] + q[..|q| - 1];
    }
  }

  lemma SnocPiecesExtend(x: char, q: seq<string>, c: char, sep: char)
    requires |q| >= 1
    ensures |SnocPieces(q, c, sep)| >= 1
    ensures ExtendFirst(x, SnocPieces(q, c, sep)) == SnocPieces(ExtendFirst(x, q), c, sep)
  {
    if c != sep {
      if |q| == 1 {
        assert [x] + (q[0] + [c]) == ([x] + q[0]) + [c];
      } else {
        assert ExtendFirst(x, q)[..|q| - 1] == [[x] + q[0]] + q[1..|q| - 1];
      }
    }
  }

  lemma {:induction false} SplitSnoc(s: string, c: char, sep: char)
    ensures Split(s + [c], sep) == SnocPieces(Split(s, sep), c, sep)
  {
    if s == [] {
      assert s + [c] == [c];
      assert [c][1..] == [];
      assert Split([], sep) == [[]];
      if c == sep {
        assert Split([c], sep) == [[]] + [[]];
      } else {
        assert Split([c], sep) == [[c] + []] + [[]][1..];
        assert [c] + [] == [] + [c];
      }
    } else {
      assert (s + [c])[1..] == s[1..] + [c];
      SplitSnoc(s[1..], c, sep);
      var q := Split(s[1..], sep);
      if s[0] == sep {
        SnocPiecesCons([], q, c, sep);
      } else {
        SnocPiecesExtend(s[0], q, c, sep);
      }
    }
  }

  /** The parts stripped, blank parts dropped. */
  function NonBlankStripped(parts: seq<string>): (r: seq<string>)
    ensures |r| <= |parts|
    ensures forall k :: 0 <= k < |r| ==> r[k] != []
  {
    if parts == [] then []
    else
      var p := Strip(parts[0]);
      (if p != [] then [p] else []) + NonBlankStripped(parts[1..])
  }

  /** Every kept entry is already stripped. */
  lemma {:induction false} NonBlankStrippedAreStripped(parts: seq<string>)
    ensures forall e :: e in NonBlankStripped(parts) ==> Strip(e) == e
  {
    if parts != [] {
      NonBlankStrippedAreStripped(parts[1..]);
      StripIdempotent(parts[0]);
    }
  }

  /** Every part that is not blank survives, as its stripped text. */
  lemma {:induction false} NonBlankStrippedKeeps(parts: seq<string>, p: string)
    requires p in parts && !IsBlank(p)
    ensures Strip(p) in NonBlankStripped(parts)
  {
    var x := Strip(parts[0]);
    var xs := if x != [] then [x] else [];
    assert NonBlankStripped(parts) == xs + NonBlankStripped(parts[1..]);
    if p != parts[0] {
      assert parts == [parts[0]] + parts[1..];
      NonBlankStrippedKeeps(parts[1..], p);
    }
  }

  /** Nothing is kept but the stripped text of a part that is not blank. */
  lemma {:induction false} NonBlankStrippedOnly(parts: seq<string>, e: string) returns (p: string)
    requires e in NonBlankStripped(parts)
    ensures p in parts && !IsBlank(p) && e == Strip(p)
  {
    var x := Strip(parts[0]);
    var xs := if x != [] then [x] else [];
    var rest := NonBlankStripped(parts[1..]);
    assert NonBlankStripped(parts) == xs + rest;
    if e in rest {
      p := NonBlankStrippedOnly(parts[1..], e);
      assert parts == [parts[0]] + parts[1..];
    } else {
      p := parts[0];
    }
  }

  lemma {:induction false} NonBlankStrippedAppend(a: seq<string>, b: seq<string>)
    ensures NonBlankStripped(a + b) == NonBlankStripped(a) + NonBlankStripped(b)
  {
    if a != [] {
      assert (a + b)[0] == a[0];
      assert (a + b)[1..] == a[1..] + b;
      NonBlankStrippedAppend(a[1..], b);
      var x := Strip(a[0]);
      var xs := if x != [] then [x] else [];
      assert NonBlankStripped(a + b) == xs + NonBlankStripped(a[1..] + b);
      assert NonBlankStripped(a) == xs + NonBlankStripped(a[1..]);
    } else {
      assert a + b == b;
    }
  }

  lemma NonBlankStrippedOfBlankOne(p: string)
    requires IsBlank(p)
    ensures NonBlankStripped([p]) == []
  {
    assert [p][1..] == [];
  }

  /** One blank character in front of the input changes none of the kept entries. */
  lemma BlankConsIrrelevant(c: char, y: string, sep: char)
    requires IsSpace(c)
    ensures NonBlankStripped(Split([c] + y, sep)) == NonBlankStripped(Split(y, sep))
  {
    assert ([c] + y)[1..] == y;
    var rest := Split(y, sep);
    if c == sep {
      assert Split([c] + y, sep) == [[]] + rest;
      NonBlankStrippedAppend([[]], rest);
      NonBlankStrippedOfBlankOne([]);
    } else {
      var first := [c] + rest[0];
      assert Split([c] + y, sep) == [first] + rest[1..];
      NonBlankStrippedAppend([first], rest[1..]);
      NonBlankStrippedAppend([rest[0]], rest[1..]);
      assert rest == [rest[0]] + rest[1..];
      StripConsSpace(c, rest[0]);
      assert [first][1..] == [] && [rest[0]][1..] == [];
      assert NonBlankStripped([first]) == NonBlankStripped([rest[0]]);
    }
  }

  /** Blank text in front of the whole input changes none of the kept entries. */
  lemma {:induction false} BlankPrefixIrrelevant(w: string, s: string, sep: char)
    requires IsBlank(w)
    ensures NonBlankStripped(Split(w + s, sep)) == NonBlankStripped(Split(s, sep))
  {
    if w != [] {
      var y := w[1..] + s;
      assert w + s == [w[0]] + y;
      BlankConsIrrelevant(w[0], y, sep);
      BlankPrefixIrrelevant(w[1..], s, sep);
      calc {
        NonBlankStripped(Split(w + s, sep));
        NonBlankStripped(Split([w[0]] + y, sep));
        NonBlankStripped(Split(y, sep));
        NonBlankStripped(Split(s, sep));
      }
    } else {
      assert w + s == s;
    }
  }

  /** One blank character after the input changes none of the kept entries. */
  lemma BlankSnocIrrelevant(y: string, c: char, sep: char)
    requires IsSpace(c)
    ensures NonBlankStripped(Split(y + [c], sep)) == NonBlankStripped(Split(y, sep))
  {
    SplitSnoc(y, c, sep);
    var p := Split(y, sep);
    assert Split(y + [c], sep) == if c == sep then p + [[]] else p[..|p| - 1] + [p[|p| - 1] + [c]];
    var init := p[..|p| - 1];
    var last := p[|p| - 1];
    if c == sep {
      NonBlankStrippedAppend(p, [[]]);
      NonBlankStrippedOfBlankOne([]);
    } else {
      NonBlankStrippedAppend(init, [last + [c]]);
      NonBlankStrippedAppend(init, [last]);
      assert p == init + [last];
      StripSnocSpace(last, c);
      assert [last + [c]][1..] == [] && [last][1..] == [];
      assert NonBlankStripped([last + [c]]) == NonBlankStripped([last]);
    }
  }

  /** Blank text after the whole input changes none of the kept entries. */
  lemma {:induction false} BlankSuffixIrrelevant(s: string, w: string, sep: char)
    requires IsBlank(w)
    ensures NonBlankStripped(Split(s + w, sep)) == NonBlankStripped(Split(s, sep))
  {
    if w != [] {
      var c := w[|w| - 1];
      var w' := w[..|w| - 1];
      assert w == w' + [c];
      BlankConcat(w', [c]);
      assert [c][1..] == [];
      assert s + w == (s + w') + [c];
      BlankSnocIrrelevant(s + w', c, sep);
      BlankSuffixIrrelevant(s, w', sep);
      calc {
        NonBlankStripped(Split(s + w, sep));
        NonBlankStripped(Split((s + w') + [c], sep));
        NonBlankStripped(Split(s + w', sep));
        NonBlankStripped(Split(s, sep));
      }
    } else {
      assert s + w == s;
    }
  }

  /** Stripping the whole text before splitting on any separator keeps the
      same non-blank stripped pieces. */
  lemma StripBeforeSplitIrrelevant(s: string, sep: char)
    ensures NonBlankStripped(Split(Strip(s), sep)) == NonBlankStripped(Split(s, sep))
  {
    var i := StripFrame(s);
    var r := Strip(s);
    var tail := s[i + |r|..];
    assert s == s[..i] + (r + tail);
    BlankPrefixIrrelevant(s[..i], r + tail, sep);
    BlankSuffixIrrelevant(r, tail, sep);
  }

  /** Python's `s.replace(a, b)` for single characters. */
  function ReplaceChar(s: string, a: char, b: char): (r: string)
    ensures |r| == |s|
    ensures forall i :: 0 <= i < |s| ==> r[i] == (if s[i] == a then b else s[i])
  {
    seq(|s|, i requires 0 <= i < |s| => if s[i] == a then b else s[i])
  }

  /** SQLite's `LOWER()` and the folding of `COLLATE NOCASE`: only the 26 ASCII
      capitals change. */
  function AsciiLowerChar(c: char): char {
    if 'A' <= c <= 'Z' then (c as int + 32) as char else c
  }

  function AsciiLower(s: string): (r: string)
    ensures |r| == |s|
    ensures forall i :: 0 <= i < |s| ==> r[i] == AsciiLowerChar(s[i])
  {
    seq(|s|, i requires 0 <= i < |s| => AsciiLowerChar(s[i]))
  }

  /** Python's `str.lower()` on the ASCII and Latin-1 capitals (U+00C0 to
      U+00DE except the multiplication sign U+00D7). */
  function PyLowerChar(c: char): char {
    if 'A' <= c <= 'Z' || ('\U{C0}' <= c <= '\U{DE}' && c != '\U{D7}') then (c as int + 32) as char else c
  }

  function PyLower(s: string): (r: string)
    ensures |r| == |s|
    ensures forall i :: 0 <= i < |s| ==> r[i] == PyLowerChar(s[i])
  {
    seq(|s|, i requires 0 <= i < |s| => PyLowerChar(s[i]))
  }

  /** Lower-casing twice changes nothing more. */
  lemma PyLowerIdempotent(s: string)
    ensures PyLower(PyLower(s)) == PyLower(s)
  {
  }

  predicate IsAscii(s: string) {
    forall i :: 0 <= i < |s| ==> s[i] < '\U{80}'
  }

  /** On ASCII text the two lowerings agree. */
  lemma LowerAgreeOnAscii(s: string)
    requires IsAscii(s)
    ensures PyLower(s) == AsciiLower(s)
  {
  }
}
