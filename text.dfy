/** The Python string operations the `.env` update relies on, over
    `seq<char>`: `startswith`, `in`, `find('\n')`, `split('\n')`, `'\n'.join` and
    `strip()`. */
module Text {

  /** `s.startswith(prefix)`: every string starts with itself and with the
      empty string, and never with a longer one. */
  predicate StartsWith(s: string, prefix: string): (b: bool)
    ensures s == prefix ==> b
    ensures prefix == [] ==> b
    ensures b ==> |prefix| <= |s|
  {
    |prefix| <= |s| && s[..|prefix|] == prefix
  }

  /** `startswith` compares character by character. */
  lemma StartsWithAt(s: string, prefix: string)
    ensures StartsWith(s, prefix) <==> |prefix| <= |s| && forall i :: 0 <= i < |prefix| ==> s[i] == prefix[i]
  {
    if |prefix| <= |s| && forall i :: 0 <= i < |prefix| ==> s[i] == prefix[i] {
      assert s[..|prefix|] == prefix;
    }
  }

  /** `t` occurs in `s` at offset `i`. */
  predicate OccursAt(s: string, t: string, i: int) {
    0 <= i <= |s| && StartsWith(s[i..], t)
  }

  /** `t in s`: `t` occurs in `s` at some offset. Every string contains
      its prefixes (the empty one included) and no longer string. */
  predicate Contains(s: string, t: string): (b: bool)
    ensures StartsWith(s, t) ==> b
    ensures |s| < |t| ==> !b
  {
    assert s[0..] == s;
    assert StartsWith(s, t) ==> OccursAt(s, t, 0);
    exists i | 0 <= i <= |s| :: OccursAt(s, t, i)
  }

  /** An occurrence in a prefix is an occurrence in the whole string. */
  lemma ContainsInPrefix(s: string, k: nat, t: string)
    requires k <= |s| && Contains(s[..k], t)
    ensures Contains(s, t)
  {
    var i :| 0 <= i <= |s[..k]| && OccursAt(s[..k], t, i);
    assert s[..k][i..][..|t|] == s[i..][..|t|];
    assert OccursAt(s, t, i);
  }

  /** `s` holds no newline. */
  predicate NoNewline(s: string) {
    forall k :: 0 <= k < |s| ==> s[k] != '\n'
  }

  /** `s.find('\n')`, with `|s|` standing for "not found": the position of
      the first newline. */
  function NewlineAt(s: string): (i: nat)
    ensures i <= |s| && (i < |s| ==> s[i] == '\n')
  {
    if s == [] || s[0] == '\n' then 0 else NewlineAt(s[1..]) + 1
  }

  /** No newline comes before the first one. */
  lemma {:induction false} BeforeNewline(s: string)
    ensures NoNewline(s[..NewlineAt(s)])
    decreases |s|
  {
    if s != [] && s[0] != '\n' {
      BeforeNewline(s[1..]);
      var i := NewlineAt(s);
      assert s[..i] == [s[0]] + s[1..][..i - 1];
    }
  }

  /** `s.split('\n')`: the pieces between newlines; one more piece than
      there are newlines. */
  function Split(s: string): (lines: seq<string>)
    ensures |lines| >= 1
    decreases |s|
  {
    var i := NewlineAt(s);
    if i < |s| then [s[..i]] + Split(s[i + 1..]) else [s]
  }

  /** No piece of a split holds a newline. */
  lemma {:induction false} SplitLines(s: string)
    ensures forall j :: 0 <= j < |Split(s)| ==> NoNewline(Split(s)[j])
    decreases |s|
  {
    var i := NewlineAt(s);
    BeforeNewline(s);
    if i < |s| {
      var rest := s[i + 1..];
      SplitLines(rest);
      assert Split(s) == [s[..i]] + Split(rest);
      forall j | 0 <= j < |Split(s)| ensures NoNewline(Split(s)[j]) {
        if j > 0 {
          assert Split(s)[j] == Split(rest)[j - 1];
        }
      }
    }
  }

  /** A prefix of a prefix is a prefix. */
  lemma StartsWithTrans(s: string, t: string, u: string)
    requires StartsWith(s, t) && StartsWith(t, u)
    ensures StartsWith(s, u)
  {
    assert s[..|u|] == s[..|t|][..|u|];
  }

  /** `'\n'.join(lines)`: the text begins with the first line, followed by
      a newline when more lines come. */
  function Join(lines: seq<string>): (s: string)
    ensures lines != [] ==> StartsWith(s, lines[0])
    ensures |lines| > 1 ==> |lines[0]| < |s| && s[|lines[0]|] == '\n'
    decreases |lines|
  {
    if lines == [] then ""
    else if |lines| == 1 then lines[0]
    else lines[0] + "\n" + Join(lines[1..])
  }

  /** Joining the pieces of a split gives the string back. */
  lemma {:induction false} JoinSplit(s: string)
    ensures Join(Split(s)) == s
    decreases |s|
  {
    var i := NewlineAt(s);
    if i < |s| {
      var p, rest := s[..i], s[i + 1..];
      assert s == p + "\n" + rest;
      BeforeNewline(s);
      SplitFirst(p, rest);
      JoinSplit(rest);
      JoinCons(p, Split(rest));
    } else {
      BeforeNewline(s);
      assert s[..i] == s;
      SplitWhole(s);
    }
  }

  /** Every line of a join occurs in the joined text. */
  lemma {:induction false} JoinOffset(lines: seq<string>, i: nat) returns (o: nat)
    requires i < |lines|
    ensures o <= |Join(lines)| && StartsWith(Join(lines)[o..], lines[i])
    decreases |lines|
  {
    if i == 0 {
      o := 0;
      assert Join(lines)[0..] == Join(lines);
    } else {
      var tail := lines[1..];
      assert lines[i] == tail[i - 1];
      var o' := JoinOffset(tail, i - 1);
      o := |lines[0]| + 1 + o';
      DropPast(lines[0], Join(tail), o');
    }
  }

  /** A join contains whatever one of its lines starts with. */
  lemma JoinContains(lines: seq<string>, i: nat, t: string)
    requires i < |lines| && StartsWith(lines[i], t)
    ensures Contains(Join(lines), t)
  {
    var o := JoinOffset(lines, i);
    StartsWithTrans(Join(lines)[o..], lines[i], t);
    assert OccursAt(Join(lines), t, o);
  }

  /** Past the first line and its newline comes the rest. */
  lemma DropPast(p: string, rest: string, k: nat)
    requires k <= |rest|
    ensures (p + "\n" + rest)[|p| + 1 + k..] == rest[k..]
  {
    var s := p + "\n" + rest;
    assert forall i :: 0 <= i < |rest| - k ==> s[|p| + 1 + k..][i] == rest[k..][i];
  }

  lemma JoinCons(line: string, lines: seq<string>)
    requires lines != []
    ensures Join([line] + lines) == line + "\n" + Join(lines)
  {
    assert ([line] + lines)[1..] == lines;
  }

  /** Splitting a join of newline-free lines gives the lines back. */
  lemma {:induction false} SplitJoin(lines: seq<string>)
    requires |lines| >= 1
    requires forall j :: 0 <= j < |lines| ==> NoNewline(lines[j])
    ensures Split(Join(lines)) == lines
    decreases |lines|
  {
    if |lines| > 1 {
      var tail := lines[1..];
      assert forall j :: 0 <= j < |tail| ==> tail[j] == lines[j + 1];
      SplitJoin(tail);
      SplitFirst(lines[0], Join(tail));
      assert lines == [lines[0]] + tail;
    } else {
      SplitWhole(lines[0]);
    }
  }

  /** A string without a newline splits into itself. */
  lemma SplitWhole(s: string)
    requires NoNewline(s)
    ensures Split(s) == [s]
  {
    assert NewlineAt(s) == |s|;
  }

  /** A string splits first at its first newline. */
  lemma SplitFirst(p: string, t: string)
    requires NoNewline(p)
    ensures Split(p + "\n" + t) == [p] + Split(t)
  {
    var s := p + "\n" + t;
    var i := |p|;
    assert s[..i] == p && s[i] == '\n' && s[i + 1..] == t;
    NewlineAtUnique(s, i);
  }

  /** The first newline is the only newline with none before it. */
  lemma {:induction false} NewlineAtUnique(s: string, i: nat)
    requires i < |s| && s[i] == '\n'
    requires NoNewline(s[..i])
    ensures NewlineAt(s) == i
    decreases i
  {
    if i > 0 {
      assert s[0] == s[..i][0];
      assert s[1..][..i - 1] == s[..i][1..];
      NewlineAtUnique(s[1..], i - 1);
    }
  }

  /** Splitting at a newline between `a` and `b` splits `a` and `b`
      separately. */
  lemma {:induction false} SplitConcat(a: string, b: string)
    ensures Split(a + "\n" + b) == Split(a) + Split(b)
    decreases |a|, 1
  {
    if NewlineAt(a) < |a| {
      SplitConcatAt(a, b);
    } else {
      assert NoNewline(a) by {
        BeforeNewline(a);
        assert a[..NewlineAt(a)] == a;
      }
      calc {
        Split(a + "\n" + b);
      == { SplitFirst(a, b); }
        [a] + Split(b);
      == { SplitWhole(a); }
        Split(a) + Split(b);
      }
    }
  }

  /** The case of `SplitConcat` where `a` itself holds a newline. */
  lemma {:induction false} SplitConcatAt(a: string, b: string)
    requires NewlineAt(a) < |a|
    ensures Split(a + "\n" + b) == Split(a) + Split(b)
    decreases |a|, 0
  {
    var p, rest := FirstLine(a);
    var c := rest + "\n" + b;
    assert a + "\n" + b == p + "\n" + c;
    SplitFirst(p, c);
    SplitConcat(rest, b);
    ConsAssoc(p, Split(rest), Split(b));
  }

  /** A string holding a newline is its first line, the newline, and the
      rest, and splits accordingly. */
  lemma FirstLine(a: string) returns (p: string, rest: string)
    requires NewlineAt(a) < |a|
    ensures a == p + "\n" + rest && NoNewline(p)
    ensures Split(a) == [p] + Split(rest)
  {
    var i := NewlineAt(a);
    p, rest := a[..i], a[i + 1..];
    BeforeNewline(a);
    assert a == p + "\n" + rest;
  }

  lemma ConsAssoc(p: string, front: seq<string>, back: seq<string>)
    ensures [p] + (front + back) == ([p] + front) + back
  {
  }

  /** Python's `str.isspace` for one character: the characters with
      Unicode bidirectional class WS, B or S or general category Zs. Among
      ASCII these are the space and the controls TAB to CR and FS to US;
      none lies above U+3000. */
  predicate IsSpace(c: char): (b: bool)
    ensures c < '\U{80}' ==> (b <==> c in {' ', '\t', '\n', '\U{B}', '\U{C}', '\r', '\U{1C}', '\U{1D}', '\U{1E}', '\U{1F}'})
    ensures b ==> '\U{9}' <= c <= '\U{3000}'
  {
    ('\U{9}' <= c <= '\U{D}') || ('\U{1C}' <= c <= '\U{20}') || c == '\U{85}' || c == '\U{A0}' ||
    c == '\U{1680}' || ('\U{2000}' <= c <= '\U{200A}') || c == '\U{2028}' || c == '\U{2029}' ||
    c == '\U{202F}' || c == '\U{205F}' || c == '\U{3000}'
  }

  /** Every character of `s` is whitespace (true of the empty string). */
  predicate AllSpace(s: string) {
    forall k :: 0 <= k < |s| ==> IsSpace(s[k])
  }

  /** Where `lstrip()` stops: the first index at or after `k` that does
      not hold whitespace, or `|s|`. */
  function StripStart(s: string, k: nat): (lo: nat)
    requires k <= |s|
    ensures k <= lo <= |s|
    ensures forall j :: k <= j < lo ==> IsSpace(s[j])
    ensures lo < |s| ==> !IsSpace(s[lo])
    decreases |s| - k
  {
    if k < |s| && IsSpace(s[k]) then StripStart(s, k + 1) else k
  }

  /** Where `rstrip()` stops, scanning back from `hi` but not past `lo`:
      the end of the last character before `hi` that does not hold
      whitespace, or `lo`. */
  function StripEnd(s: string, lo: nat, hi: nat): (end: nat)
    requires lo <= hi <= |s|
    ensures lo <= end <= hi
    ensures forall j :: end <= j < hi ==> IsSpace(s[j])
    ensures lo < end ==> !IsSpace(s[end - 1])
    decreases hi
  {
    if lo < hi && IsSpace(s[hi - 1]) then StripEnd(s, lo, hi - 1) else hi
  }

  /** `s.strip()`: `s` without its leading and trailing whitespace; empty
      exactly when `s` is all whitespace. */
  function Strip(s: string): (r: string)
    ensures r == [] <==> AllSpace(s)
    ensures r != [] ==> !IsSpace(r[0]) && !IsSpace(r[|r| - 1])
  {
    var lo := StripStart(s, 0);
    var hi := StripEnd(s, lo, |s|);
    s[lo..hi]
  }

  /** What `strip()` keeps is a stretch of the original with only
      whitespace around it. */
  lemma StripInfix(s: string) returns (i: nat)
    ensures i + |Strip(s)| <= |s| && Strip(s) == s[i..i + |Strip(s)|]
    ensures AllSpace(s[..i]) && AllSpace(s[i + |Strip(s)|..])
  {
    i := StripStart(s, 0);
    var hi := StripEnd(s, i, |s|);
    assert Strip(s) == s[i..hi];
    assert forall k :: 0 <= k < |s| - hi ==> s[hi..][k] == s[hi + k];
  }
}
