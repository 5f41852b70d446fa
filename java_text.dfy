/**
 * The parts of java.lang.String and java.lang.Integer that the style engine
 * relies on: `split` with a one-character pattern, `trim`, ASCII case
 * mapping, `equalsIgnoreCase` and `Integer.parseInt`.
 */
module JavaText {
  import opened Wrappers

  /** The characters matched by the regular expression `\s`. */
  const Whitespace: set<char> := {' ', '\t', '\n', '\U{000B}', '\U{000C}', '\r'}

  const MinInt: int := -0x8000_0000
  const MaxInt: int := 0x7FFF_FFFF

  predicate NoneOf(s: string, delims: set<char>)
  {
    forall j :: 0 <= j < |s| ==> s[j] !in delims
  }

  /** Number of characters of `s` that are delimiters. */
  function DelimCount(s: string, delims: set<char>): nat
  {
    if s == [] then 0 else (if s[0] in delims then 1 else 0) + DelimCount(s[1..], delims)
  }

  /** `s` with every delimiter removed. */
  function WithoutDelims(s: string, delims: set<char>): string
  {
    if s == [] then [] else (if s[0] in delims then [] else [s[0]]) + WithoutDelims(s[1..], delims)
  }

  function Concat(ps: seq<string>): string
  {
    if ps == [] then [] else ps[0] + Concat(ps[1..])
  }

  /** Index of the first delimiter in `s`, or `|s|` when there is none. */
  function FirstDelim(s: string, delims: set<char>): (k: nat)
    ensures k <= |s| && forall j :: 0 <= j < k ==> s[j] !in delims
    ensures k < |s| ==> s[k] in delims
  {
    if s == [] || s[0] in delims then 0 else 1 + FirstDelim(s[1..], delims)
  }

  /** Cuts `s` at every delimiter: the pieces between consecutive delimiters, empty ones included. */
  function Pieces(s: string, delims: set<char>): (r: seq<string>)
    ensures |r| >= 1
    decreases |s|
  {
    var k := FirstDelim(s, delims);
    if k == |s| then [s] else [s[..k]] + Pieces(s[k + 1..], delims)
  }

  /** The delimiter characters of `s`, in the order they occur. */
  function DelimsOf(s: string, delims: set<char>): (ds: string)
    ensures forall i :: 0 <= i < |ds| ==> ds[i] in delims
  {
    if s == [] then [] else (if s[0] in delims then [s[0]] else []) + DelimsOf(s[1..], delims)
  }

  /** The pieces with the delimiters put back between them: piece 0, delimiter 0, piece 1, ... */
  function Interleave(ps: seq<string>, ds: string): string
    requires |ps| == |ds| + 1
  {
    if ds == [] then ps[0] else ps[0] + [ds[0]] + Interleave(ps[1..], ds[1..])
  }

  /** The delimiters of `s` are the one at its first delimiter position and those after it. */
  lemma {:induction false} DelimsOfFirst(s: string, delims: set<char>)
    ensures var k := FirstDelim(s, delims);
      DelimsOf(s, delims) == if k == |s| then [] else [s[k]] + DelimsOf(s[k + 1..], delims)
    decreases |s|
  {
    if s != [] && s[0] !in delims {
      DelimsOfFirst(s[1..], delims);
      var k := FirstDelim(s, delims);
      if k < |s| {
        assert s[1..][k - 1 + 1..] == s[k + 1..];
      }
    }
  }

  /**
   * Cutting is undone by putting the delimiters back: there is one piece
   * more than there are delimiters, and interleaving the pieces with the
   * delimiters of `s`, in order, gives back `s`.
   */
  lemma {:induction false} PiecesRoundTrip(s: string, delims: set<char>)
    ensures |Pieces(s, delims)| == |DelimsOf(s, delims)| + 1
    ensures Interleave(Pieces(s, delims), DelimsOf(s, delims)) == s
    decreases |s|
  {
    var k := FirstDelim(s, delims);
    DelimsOfFirst(s, delims);
    if k == |s| {
      assert s[..k] == s;
      assert Pieces(s, delims) == [s] && DelimsOf(s, delims) == [];
    } else {
      var rest := s[k + 1..];
      PiecesRoundTrip(rest, delims);
      PiecesStep(s, delims);
      InterleaveCons(s[..k], s[k], Pieces(rest, delims), DelimsOf(rest, delims));
      CutAt(s, k);
    }
  }

  lemma CutAt<T>(s: seq<T>, k: nat)
    requires k < |s|
    ensures s[..k] + [s[k]] + s[k + 1..] == s
  {
  }

  lemma InterleaveCons(p: string, c: char, ps: seq<string>, ds: string)
    requires |ps| == |ds| + 1
    ensures Interleave([p] + ps, [c] + ds) == p + [c] + Interleave(ps, ds)
  {
    assert ([p] + ps)[1..] == ps && ([c] + ds)[1..] == ds;
  }

  /** Removes the empty strings at the end of `ps`. */
  function DropTrailingEmpty(ps: seq<string>): (r: seq<string>)
    ensures r <= ps
    ensures r == [] || r[|r| - 1] != []
    ensures forall i :: |r| <= i < |ps| ==> ps[i] == []
  {
    if ps != [] && ps[|ps| - 1] == [] then DropTrailingEmpty(ps[..|ps| - 1]) else ps
  }

  /**
   * `s.split(p)` where the pattern `p` matches exactly one character of
   * `delims`: when nothing matches the result is `[s]` itself (so `""`
   * splits into `[""]`); otherwise `s` is cut at every delimiter and the
   * trailing empty strings are dropped.
   */
  function Split(s: string, delims: set<char>): (r: seq<string>)
  {
    if NoneOf(s, delims) then [s] else DropTrailingEmpty(Pieces(s, delims))
  }

  lemma {:induction false} DelimsAppend(a: string, b: string, delims: set<char>)
    ensures DelimCount(a + b, delims) == DelimCount(a, delims) + DelimCount(b, delims)
    ensures WithoutDelims(a + b, delims) == WithoutDelims(a, delims) + WithoutDelims(b, delims)
  {
    if a != [] {
      assert (a + b)[1..] == a[1..] + b;
      DelimsAppend(a[1..], b, delims);
    } else {
      assert a + b == b;
    }
  }

  lemma {:induction false} WithoutDelimsOfNone(s: string, delims: set<char>)
    requires forall j :: 0 <= j < |s| ==> s[j] !in delims
    ensures WithoutDelims(s, delims) == s && DelimCount(s, delims) == 0
  {
    if s != [] {
      WithoutDelimsOfNone(s[1..], delims);
      assert s == [s[0]] + s[1..];
    }
  }

  /** Unfolds `Pieces` once at its first delimiter. */
  lemma PiecesStep(s: string, delims: set<char>)
    requires FirstDelim(s, delims) < |s|
    ensures Pieces(s, delims) == [s[..FirstDelim(s, delims)]] + Pieces(s[FirstDelim(s, delims) + 1..], delims)
  {
  }

  /** Cutting at every delimiter yields one piece more than there are delimiters. */
  lemma PiecesCount(s: string, delims: set<char>)
    ensures |Pieces(s, delims)| == DelimCount(s, delims) + 1
  {
    PiecesRoundTrip(s, delims);
    DelimCountIsLength(s, delims);
  }

  lemma {:induction false} DelimCountIsLength(s: string, delims: set<char>)
    ensures DelimCount(s, delims) == |DelimsOf(s, delims)|
  {
    if s != [] {
      DelimCountIsLength(s[1..], delims);
    }
  }

  /** No piece contains a delimiter. */
  lemma {:induction false} PiecesHaveNoDelims(s: string, delims: set<char>)
    ensures forall i :: 0 <= i < |Pieces(s, delims)| ==> NoneOf(Pieces(s, delims)[i], delims)
    decreases |s|
  {
    var k := FirstDelim(s, delims);
    if k < |s| {
      var rest := s[k + 1..];
      var tail := Pieces(rest, delims);
      PiecesHaveNoDelims(rest, delims);
      var r := Pieces(s, delims);
      assert r == [s[..k]] + tail by {
        PiecesStep(s, delims);
      }
      forall i | 0 <= i < |r| ensures NoneOf(r[i], delims) {
        if i > 0 {
          assert r[i] == tail[i - 1];
        }
      }
    }
  }

  /** The pieces, laid end to end, are `s` without its delimiters. */
  lemma {:induction false} PiecesConcat(s: string, delims: set<char>)
    ensures Concat(Pieces(s, delims)) == WithoutDelims(s, delims)
    decreases |s|
  {
    var k := FirstDelim(s, delims);
    WithoutDelimsOfNone(s[..k], delims);
    if k == |s| {
      assert s[..k] == s;
      assert Concat([s]) == s + Concat([]);
    } else {
      var rest := s[k + 1..];
      PiecesStep(s, delims);
      var front := s[..k];
      var tail := [s[k]] + rest;
      assert s == front + tail;
      calc {
        Concat(Pieces(s, delims));
        { PiecesStep(s, delims); }
        Concat([front] + Pieces(rest, delims));
        { ConcatCons(front, Pieces(rest, delims)); }
        front + Concat(Pieces(rest, delims));
        { PiecesConcat(rest, delims); }
        front + WithoutDelims(rest, delims);
        { DelimAtFront(s[k], rest, delims); }
        WithoutDelims(front, delims) + WithoutDelims(tail, delims);
        { DelimsAppend(front, tail, delims); }
        WithoutDelims(front + tail, delims);
      }
    }
  }

  lemma {:induction false} ConcatDropTrailingEmpty(ps: seq<string>)
    ensures Concat(DropTrailingEmpty(ps)) == Concat(ps)
  {
    if ps != [] && ps[|ps| - 1] == [] {
      var init := ps[..|ps| - 1];
      ConcatDropTrailingEmpty(init);
      ConcatAppend(init, [[]]);
      assert ps == init + [[]];
      assert Concat([[]]) == [] + Concat([]);
    }
  }

  lemma DelimAtFront(c: char, rest: string, delims: set<char>)
    requires c in delims
    ensures WithoutDelims([c] + rest, delims) == WithoutDelims(rest, delims)
  {
    assert ([c] + rest)[1..] == rest;
  }

  lemma ConcatCons(a: string, ps: seq<string>)
    ensures Concat([a] + ps) == a + Concat(ps)
  {
    assert ([a] + ps)[1..] == ps;
  }

  lemma {:induction false} ConcatAppend(a: seq<string>, b: seq<string>)
    ensures Concat(a + b) == Concat(a) + Concat(b)
  {
    if a != [] {
      assert (a + b)[1..] == a[1..] + b;
      ConcatAppend(a[1..], b);
    } else {
      assert a + b == b;
    }
  }

  /**
   * What `split` keeps: the cuts of `s` at every delimiter up to the last
   * non-empty one. No returned piece contains a delimiter, the pieces hold
   * every character of `s` but the delimiters, in order, a match-free
   * string comes back whole, and otherwise the last piece is never empty.
   */
  lemma SplitShape(s: string, delims: set<char>)
    ensures Split(s, delims) <= Pieces(s, delims)
    ensures forall i :: |Split(s, delims)| <= i < |Pieces(s, delims)| ==> Pieces(s, delims)[i] == []
    ensures forall i :: 0 <= i < |Split(s, delims)| ==> NoneOf(Split(s, delims)[i], delims)
    ensures Concat(Split(s, delims)) == WithoutDelims(s, delims)
    ensures |Split(s, delims)| <= DelimCount(s, delims) + 1
    ensures NoneOf(s, delims) ==> Split(s, delims) == [s]
    ensures !NoneOf(s, delims) ==> Split(s, delims) == [] || Split(s, delims)[|Split(s, delims)| - 1] != []
  {
    var ps, r := Pieces(s, delims), Split(s, delims);
    if NoneOf(s, delims) {
      PiecesOfWord(s, delims);
      assert Concat(r) == WithoutDelims(s, delims) by {
        WithoutDelimsOfNone(s, delims);
        assert Concat([s]) == s + Concat([]);
      }
    } else {
      assert r == DropTrailingEmpty(ps);
      assert forall i :: 0 <= i < |r| ==> NoneOf(r[i], delims) by {
        PiecesHaveNoDelims(s, delims);
      }
      assert Concat(r) == WithoutDelims(s, delims) by {
        PiecesConcat(s, delims);
        ConcatDropTrailingEmpty(ps);
      }
      assert |r| <= DelimCount(s, delims) + 1 by {
        PiecesCount(s, delims);
      }
    }
  }

  /** A string without delimiters is a single piece. */
  lemma PiecesOfWord(w: string, delims: set<char>)
    requires NoneOf(w, delims)
    ensures Pieces(w, delims) == [w]
  {
  }

  /** A leading delimiter contributes an empty first piece. */
  lemma PiecesOfLeadingDelim(s: string, delims: set<char>)
    requires s != [] && s[0] in delims
    ensures Pieces(s, delims) == [[]] + Pieces(s[1..], delims)
  {
  }

  /** The text after the last delimiter is the last piece. */
  lemma LastPiece(s: string, p: nat, delims: set<char>)
    requires p < |s| && s[p] in delims && NoneOf(s[p + 1..], delims)
    ensures var ps := Pieces(s, delims); ps[|ps| - 1] == s[p + 1..]
  {
    CutAt(s, p);
    PiecesAppend(s[..p], s[p], s[p + 1..], delims);
    PiecesOfWord(s[p + 1..], delims);
  }

  /** Cutting at a delimiter splits the pieces: those before it, then those after it. */
  lemma {:induction false} PiecesAppend(x: string, c: char, w: string, delims: set<char>)
    requires c in delims
    ensures Pieces(x + [c] + w, delims) == Pieces(x, delims) + Pieces(w, delims)
    decreases |x|
  {
    var k := FirstDelim(x, delims);
    if k == |x| {
      PiecesAppendAtFirst(x, c, w, delims);
    } else {
      var x' := x[k + 1..];
      PiecesAppendAtInner(x, c, w, delims);
      PiecesAppend(x', c, w, delims);
      PiecesStep(x, delims);
      assert [x[..k]] + (Pieces(x', delims) + Pieces(w, delims)) ==
        ([x[..k]] + Pieces(x', delims)) + Pieces(w, delims);
    }
  }

  /** When `x` holds a delimiter, the first piece of `x + [c] + w` is the first piece of `x`. */
  lemma PiecesAppendAtInner(x: string, c: char, w: string, delims: set<char>)
    requires c in delims && FirstDelim(x, delims) < |x|
    ensures var k := FirstDelim(x, delims);
      Pieces(x + [c] + w, delims) == [x[..k]] + Pieces(x[k + 1..] + [c] + w, delims)
  {
    var s := x + [c] + w;
    var k := FirstDelim(x, delims);
    assert FirstDelim(s, delims) == k by { FirstDelimAppend(x, c, w, delims); }
    assert s[..k] == x[..k] && s[k + 1..] == x[k + 1..] + [c] + w by { SlicesAround(x, c, w, k); }
    PiecesStep(s, delims);
  }

  /** The base case of `PiecesAppend`: `x` holds no delimiter, so it is the first piece. */
  lemma PiecesAppendAtFirst(x: string, c: char, w: string, delims: set<char>)
    requires c in delims && FirstDelim(x, delims) == |x|
    ensures Pieces(x + [c] + w, delims) == [x] + Pieces(w, delims)
  {
    var s := x + [c] + w;
    assert FirstDelim(s, delims) == |x| by { FirstDelimAppend(x, c, w, delims); }
    assert s[..|x|] == x && s[|x| + 1..] == w by { SlicesAround(x, c, w, |x|); }
    PiecesStep(s, delims);
  }

  lemma SlicesAround<T>(x: seq<T>, c: T, w: seq<T>, k: nat)
    requires k <= |x|
    ensures (x + [c] + w)[..k] == x[..k]
    ensures k == |x| ==> (x + [c] + w)[k + 1..] == w
    ensures k < |x| ==> (x + [c] + w)[k + 1..] == x[k + 1..] + [c] + w
  {
  }

  /** A delimiter appended after `x` is found only when `x` has none of its own. */
  lemma {:induction false} FirstDelimAppend(x: string, c: char, w: string, delims: set<char>)
    requires c in delims
    ensures FirstDelim(x + [c] + w, delims) == FirstDelim(x, delims)
    decreases |x|
  {
    if x != [] && x[0] !in delims {
      assert (x + [c] + w)[1..] == x[1..] + [c] + w;
      FirstDelimAppend(x[1..], c, w, delims);
    }
  }

  /** A prefix one element longer is the shorter prefix and that element. */
  lemma TakeOneMore<T>(s: seq<T>, i: nat)
    requires i < |s|
    ensures s[..i + 1] == s[..i] + [s[i]]
  {
  }

  /** A string whose last delimiter, at `p`, is followed by non-empty text splits with that text last. */
  lemma SplitEndsWithPiece(s: string, p: nat, delims: set<char>)
    requires p + 1 < |s| && s[p] in delims && NoneOf(s[p + 1..], delims)
    ensures var r := Split(s, delims); |r| > 0 && r[|r| - 1] == s[p + 1..]
  {
    var ps := Pieces(s, delims);
    LastPiece(s, p, delims);
    assert ps[|ps| - 1] != [];
    assert !NoneOf(s, delims);
  }

  /** `" ".split("\\s")` is empty: the only pieces are trailing and empty. */
  lemma SplitOfBlankIsEmpty()
    ensures Split(" ", Whitespace) == []
  {
    PiecesOfLeadingDelim(" ", Whitespace);
    PiecesOfWord([], Whitespace);
    assert " "[1..] == [];
  }

  /**
   * Two consecutive spaces between words give an empty token between them,
   * as `"10px  20px".split("\\s")` gives `["10px", "", "20px"]`.
   */
  lemma SplitKeepsInnerEmpty(w1: string, w2: string)
    requires NoneOf(w1, Whitespace) && NoneOf(w2, Whitespace) && w2 != []
    ensures Split(w1 + "  " + w2, Whitespace) == [w1, "", w2]
  {
    var s := w1 + "  " + w2;
    var k := |w1|;
    var rest := " " + w2;
    assert s[k] in Whitespace;
    assert Pieces(s, Whitespace) == [w1] + Pieces(rest, Whitespace) by {
      assert s[k] == ' ' && s[..k] == w1 && s[k + 1..] == rest;
      assert FirstDelim(s, Whitespace) == k;
      PiecesStep(s, Whitespace);
    }
    assert Pieces(rest, Whitespace) == ["", w2] by {
      PiecesOfLeadingDelim(rest, Whitespace);
      assert rest[1..] == w2;
      PiecesOfWord(w2, Whitespace);
    }
    assert Pieces(s, Whitespace) == [w1, "", w2];
  }

  // ---------------------------------------------------------------- trim

  /** `String.trim` removes every leading and trailing character at or below U+0020. */
  function Trim(s: string): (r: string)
    ensures r != [] ==> r[0] > ' ' && r[|r| - 1] > ' '
  {
    s[TrimFrom(s)..TrimTo(s, TrimFrom(s))]
  }

  /** Index of the first character above U+0020 (or `|s|`): everything before it is trimmed. */
  function TrimFrom(s: string): (i: nat)
    ensures i <= |s| && forall k :: 0 <= k < i ==> s[k] <= ' '
    ensures i < |s| ==> s[i] > ' '
  {
    if s != [] && s[0] <= ' ' then 1 + TrimFrom(s[1..]) else 0
  }

  /** End of the trimmed text: every character from it on is at or below U+0020. */
  function TrimTo(s: string, from: nat): (j: nat)
    requires from <= |s|
    ensures from <= j <= |s| && forall k :: j <= k < |s| ==> s[k] <= ' '
    ensures from < j ==> s[j - 1] > ' '
  {
    if from < |s| && s[|s| - 1] <= ' ' then TrimTo(s[..|s| - 1], from) else |s|
  }

  /** Text made only of characters that `trim` removes. */
  predicate Blanks(s: string)
  {
    forall i :: 0 <= i < |s| ==> s[i] <= ' '
  }

  /** `trim` returns exactly the text between blank ends, when that text has no blank at either end. */
  lemma TrimExact(b1: string, k: string, b2: string)
    requires Blanks(b1) && Blanks(b2)
    requires k != [] ==> k[0] > ' ' && k[|k| - 1] > ' '
    ensures Trim(b1 + k + b2) == k
  {
    var s := b1 + k + b2;
    var i := TrimFrom(s);
    var j := TrimTo(s, i);
    if k == [] {
      assert forall x :: 0 <= x < |s| ==> s[x] <= ' ';
      assert i == |s|;
    } else {
      assert s[|b1|] == k[0];
      assert i == |b1|;
      assert s[|b1| + |k| - 1] == k[|k| - 1];
      assert j == |b1| + |k|;
      assert s[i..j] == k;
    }
  }

  /** A text with no blank at either end is its own trim. */
  lemma TrimOfTrimmed(k: string)
    requires k != [] ==> k[0] > ' ' && k[|k| - 1] > ' '
    ensures Trim(k) == k
  {
    assert [] + k + [] == k;
    TrimExact([], k, []);
  }

  /** Blanks around a text do not change what `trim` makes of it. */
  lemma TrimIgnoresBlanks(b1: string, k: string, b2: string)
    requires Blanks(b1) && Blanks(b2)
    ensures Trim(b1 + k + b2) == Trim(k)
  {
    var c1, c2 := TrimSplits(k);
    BlankAppend(b1, c1);
    BlankAppend(c2, b2);
    Regroup(b1, c1, Trim(k), c2, b2);
    TrimExact(b1 + c1, Trim(k), c2 + b2);
  }

  /** Every text is its trimmed part between two blank ends. */
  lemma TrimSplits(k: string) returns (c1: string, c2: string)
    ensures Blanks(c1) && Blanks(c2) && k == c1 + Trim(k) + c2
  {
    var i := TrimFrom(k);
    var j := TrimTo(k, i);
    c1, c2 := k[..i], k[j..];
    assert k == c1 + k[i..j] + c2;
  }

  lemma Regroup<T>(a: seq<T>, b: seq<T>, c: seq<T>, d: seq<T>, e: seq<T>)
    ensures a + (b + c + d) + e == (a + b) + c + (d + e)
  {
  }

  lemma BlankAppend(a: string, b: string)
    requires Blanks(a) && Blanks(b)
    ensures Blanks(a + b)
  {
    forall x | 0 <= x < |a + b| ensures (a + b)[x] <= ' ' {
      if x >= |a| { assert (a + b)[x] == b[x - |a|]; }
    }
  }

  // ---------------------------------------------------------- case mapping

  function LowerChar(c: char): char
  {
    if 'A' <= c <= 'Z' then (c as int + 32) as char else c
  }

  function UpperChar(c: char): char
  {
    if 'a' <= c <= 'z' then (c as int - 32) as char else c
  }

  /** `toLowerCase` on the ASCII letters. */
  function ToLower(s: string): (r: string)
    ensures |r| == |s| && forall i :: 0 <= i < |s| ==> r[i] == LowerChar(s[i])
  {
    seq(|s|, i requires 0 <= i < |s| => LowerChar(s[i]))
  }

  /** `toUpperCase` on the ASCII letters. */
  function ToUpper(s: string): (r: string)
    ensures |r| == |s| && forall i :: 0 <= i < |s| ==> r[i] == UpperChar(s[i])
  {
    seq(|s|, i requires 0 <= i < |s| => UpperChar(s[i]))
  }

  /** Case mapping works character by character, so it distributes over concatenation. */
  lemma ToLowerAppend(a: string, b: string)
    ensures ToLower(a + b) == ToLower(a) + ToLower(b)
  {
  }

  /** `a.equalsIgnoreCase(b)` on the ASCII letters: same length, and equal characters after case folding. */
  predicate EqualsIgnoreCase(a: string, b: string)
  {
    ToLower(a) == ToLower(b)
  }

  // ---------------------------------------------------------- parseInt

  predicate IsDigit(c: char)
  {
    '0' <= c <= '9'
  }

  /** Value of a string of decimal digits, most significant first. */
  function DecimalValue(ds: string): nat
    requires forall i :: 0 <= i < |ds| ==> IsDigit(ds[i])
  {
    if ds == [] then 0
    else
      assert IsDigit(ds[|ds| - 1]);
      10 * DecimalValue(ds[..|ds| - 1]) + (ds[|ds| - 1] as int - '0' as int)
  }

  /**
   * `Integer.parseInt(s)`: an optional `-` or `+`, then one or more decimal
   * digits, whose value must fit in 32 bits; `None` stands for the
   * NumberFormatException thrown otherwise.
   */
  function ParseInt(s: string): (r: Option<int>)
    ensures r.Some? ==> MinInt <= r.value <= MaxInt
    ensures r.Some? ==> s != [] && (IsDigit(s[0]) || s[0] == '-' || s[0] == '+')
    ensures r.Some? ==>
              s != [] &&
              var start := if s[0] == '-' || s[0] == '+' then 1 else 0;
              start < |s| && forall i :: start <= i < |s| ==> IsDigit(s[i])
  {
    if s == [] then None
    else
      var digits := if s[0] == '-' || s[0] == '+' then s[1..] else s;
      if digits == [] || exists i :: 0 <= i < |digits| && !IsDigit(digits[i]) then None
      else
        var v: int := if s[0] == '-' then -(DecimalValue(digits) as int) else DecimalValue(digits);
        if MinInt <= v <= MaxInt then Some(v) else None
  }

  /**
   * The converse: a sign (or none) followed by one or more digits parses to
   * the signed value of the digits exactly when that value fits in 32 bits.
   */
  lemma ParseIntOfDigits(sign: string, ds: string)
    requires sign == "" || sign == "-" || sign == "+"
    requires ds != [] && forall i :: 0 <= i < |ds| ==> IsDigit(ds[i])
    ensures var v := if sign == "-" then -(DecimalValue(ds) as int) else DecimalValue(ds) as int;
      ParseInt(sign + ds) == if MinInt <= v <= MaxInt then Some(v) else None
  {
    var s := sign + ds;
    if sign == "" {
      assert s == ds;
      assert IsDigit(s[0]);
    } else {
      assert s[1..] == ds;
    }
  }

  function DigitChar(d: nat): char
    requires d < 10
  {
    ('0' as int + d) as char
  }

  /** The decimal digits of `n`, as `Integer.toString` writes a non-negative number. */
  function Digits(n: nat): (r: string)
    ensures r != [] && forall i :: 0 <= i < |r| ==> IsDigit(r[i])
  {
    if n < 10 then [DigitChar(n)] else Digits(n / 10) + [DigitChar(n % 10)]
  }

  /** `Integer.toString(n)`. */
  function IntToString(n: int): string
  {
    if n < 0 then "-" + Digits(-n) else Digits(n)
  }

  lemma {:induction false} DecimalValueOfDigits(n: nat)
    ensures DecimalValue(Digits(n)) == n
  {
    if n >= 10 {
      DecimalValueOfDigits(n / 10);
      var ds := Digits(n);
      assert ds[..|ds| - 1] == Digits(n / 10);
    }
  }

  /** `Integer.parseInt` reads back every 32-bit value that `Integer.toString` writes. */
  lemma ParseIntRoundTrip(n: int)
    requires MinInt <= n <= MaxInt
    ensures ParseInt(IntToString(n)) == Some(n)
  {
    var s := IntToString(n);
    if n < 0 {
      DecimalValueOfDigits(-n);
      assert s[1..] == Digits(-n);
    } else {
      DecimalValueOfDigits(n);
      assert IsDigit(s[0]);
    }
  }
}
