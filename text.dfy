/** The JavaScript string operations that main.ts relies on, with the exact semantics of
    `String.prototype.split`, `trim`, `slice` and array concatenation.  Text is a sequence of
    characters; the model assumes that the responses read from the runtime's socket are ASCII,
    so that one character stands for one byte. */
module Text {
  import opened Common

  const CRLF: string := "\r\n"
  const CRLFCRLF: string := "\r\n\r\n"

  function Last<T>(r: seq<T>): T
    requires |r| > 0
  {
    r[|r| - 1]
  }

  function AllButLast<T>(r: seq<T>): seq<T>
    requires |r| > 0
  {
    r[..|r| - 1]
  }

  // ---------------------------------------------------------------------------------------
  // split on a single character, without a limit

  /** `s.split(c)`: the pieces of `s` between the occurrences of `c`; there is always one more
      piece than there are occurrences, so an empty string gives `[""]`. */
  function Split(s: string, c: char): (r: seq<string>)
    ensures |r| >= 1
    ensures forall k :: 0 <= k < |r| ==> c !in r[k]
    decreases |s|
  {
    if |s| == 0 then [""]
    else
      var rest := Split(s[1..], c);
      if s[0] == c then [""] + rest else [[s[0]] + rest[0]] + rest[1..]
  }

  /** `parts.join(sep)` (and Go's `strings.Join`). */
  function Join(parts: seq<string>, sep: string): (r: string)
    ensures |parts| > 0 ==> |parts[0]| <= |r| && r[..|parts[0]|] == parts[0]
    ensures |parts| > 1 ==> |parts[0]| + |sep| <= |r| && r[|parts[0]|..|parts[0]| + |sep|] == sep
  {
    if |parts| == 0 then ""
    else if |parts| == 1 then parts[0]
    else parts[0] + sep + Join(parts[1..], sep)
  }

  /** Splitting and joining back with the same character gives the original text: split loses
      and duplicates nothing. */
  lemma {:induction false} JoinSplit(s: string, c: char)
    ensures Join(Split(s, c), [c]) == s
    decreases |s|
  {
    if |s| > 0 {
      var rest := Split(s[1..], c);
      JoinSplit(s[1..], c);
      assert s == [s[0]] + s[1..];
      if s[0] != c {
        if |rest| > 1 {
          assert rest == [rest[0]] + rest[1..];
          assert Join(rest, [c]) == rest[0] + [c] + Join(rest[1..], [c]);
        }
      }
    }
  }

  /** Text without the separator is a single piece. */
  lemma {:induction false} SplitWithout(a: string, c: char)
    requires c !in a
    ensures Split(a, c) == [a]
    decreases |a|
  {
    if |a| > 0 {
      SplitWithout(a[1..], c);
      assert a == [a[0]] + a[1..];
    }
  }

  /** The first piece ends at the first separator. */
  lemma {:induction false} SplitFirst(a: string, b: string, c: char)
    requires c !in a
    ensures Split(a + [c] + b, c) == [a] + Split(b, c)
    decreases |a|
  {
    var s := a + [c] + b;
    if |a| == 0 {
      assert s[1..] == b;
    } else {
      assert s[1..] == a[1..] + [c] + b;
      SplitFirst(a[1..], b, c);
      assert a == [a[0]] + a[1..];
    }
  }

  /** Splitting `x + y` is splitting `x`, keeping its complete pieces, and continuing from its
      last, unfinished piece followed by `y`.  This is what makes the event decoder's
      `leftover` buffer lose nothing across reads. */
  lemma {:induction false} SplitAppend(x: string, y: string, c: char)
    ensures Split(x + y, c) == AllButLast(Split(x, c)) + Split(Last(Split(x, c)) + y, c)
    decreases |x|
  {
    if |x| == 0 {
      assert x + y == y;
      assert Last(Split(x, c)) + y == y;
    } else {
      var a, t := x[0], x[1..];
      SplitAppend(t, y, c);
      assert x == [a] + t && x + y == [a] + (t + y);
      SplitAppendCons(a, t, y, c);
    }
  }

  /** `SplitAppend` for a text `[a] + t`, from the case of `t`. */
  lemma SplitAppendCons(a: char, t: string, y: string, c: char)
    requires Split(t + y, c) == AllButLast(Split(t, c)) + Split(Last(Split(t, c)) + y, c)
    ensures Split([a] + (t + y), c)
         == AllButLast(Split([a] + t, c)) + Split(Last(Split([a] + t, c)) + y, c)
  {
    SplitCons(a, t, c);
    SplitCons(a, t + y, c);
    var sx := Split(t, c);
    if a == c {
      assert AllButLast([""] + sx) == [""] + AllButLast(sx);
    } else if |sx| == 1 {
      SplitAppendOnePiece(a, t, y, c);
    } else {
      PieceAppend([a], sx, Split(Last(sx) + y, c));
    }
  }

  /** `SplitAppend` for `[a] + t` when `t` holds no separator and `a` is not one. */
  lemma SplitAppendOnePiece(a: char, t: string, y: string, c: char)
    requires a != c && |Split(t, c)| == 1
    requires Split([a] + t, c) == [[a] + Split(t, c)[0]]
    ensures Split([a] + (t + y), c)
         == AllButLast(Split([a] + t, c)) + Split(Last(Split([a] + t, c)) + y, c)
  {
    assert t == Split(t, c)[0] by { JoinSplit(t, c); }
    assert [a] + t + y == [a] + (t + y);
    assert AllButLast([[a] + t]) == [];
  }

  /** One step of `Split`: a leading separator closes an empty piece; any other character
      starts the first piece. */
  lemma SplitCons(a: char, t: string, c: char)
    ensures Split([a] + t, c)
         == if a == c then [""] + Split(t, c) else [[a] + Split(t, c)[0]] + Split(t, c)[1..]
  {
    assert ([a] + t)[0] == a && ([a] + t)[1..] == t;
  }

  /** Extending the first of several pieces does not touch the last one. */
  lemma PieceAppend(h: string, pieces: seq<string>, more: seq<string>)
    requires |pieces| > 1
    ensures var p := [h + pieces[0]] + pieces[1..];
      var r := AllButLast(pieces) + more;
      && Last(p) == Last(pieces)
      && [h + r[0]] + r[1..] == AllButLast(p) + more
  {
    var p := [h + pieces[0]] + pieces[1..];
    var r := AllButLast(pieces) + more;
    assert r[1..] == AllButLast(pieces)[1..] + more;
    assert AllButLast(p) == [h + pieces[0]] + AllButLast(pieces)[1..];
  }

  // ---------------------------------------------------------------------------------------
  // split on a separator string with a limit of two pieces

  /** `sep` starts at position `j` of `s`. */
  predicate OccursAt(s: string, sep: string, j: int)
  {
    0 <= j && j + |sep| <= |s| && s[j..j + |sep|] == sep
  }

  /** The first position at or after `k` where `sep` starts (`s.indexOf(sep, k)`). */
  function IndexFrom(s: string, sep: string, k: nat): (r: Option<nat>)
    requires k <= |s|
    ensures r.Some? ==> k <= r.value && OccursAt(s, sep, r.value)
    ensures r.Some? ==> forall j :: k <= j < r.value ==> !OccursAt(s, sep, j)
    ensures r.None? ==> forall j :: k <= j ==> !OccursAt(s, sep, j)
    decreases |s| - k
  {
    if k + |sep| > |s| then None
    else if s[k..k + |sep|] == sep then Some(k)
    else IndexFrom(s, sep, k + 1)
  }

  function IndexOf(s: string, sep: string): Option<nat>
  {
    IndexFrom(s, sep, 0)
  }

  predicate Contains(s: string, sep: string)
  {
    IndexOf(s, sep).Some?
  }

  /** `s.split(sep, 2)`: the text before the first `sep` and, if there is one, the text between
      it and the next `sep` (or the end).  Whatever follows a second `sep` is discarded. */
  function SplitLimit2(s: string, sep: string): (r: seq<string>)
    ensures |r| == 1 || |r| == 2
    ensures |r| == 1 <==> !Contains(s, sep)
    ensures |r| == 1 ==> r[0] == s
    ensures |r| == 2 ==> OccursAt(s, sep, |r[0]|) && s[..|r[0]|] == r[0]
    ensures |r| == 2 ==> forall j :: 0 <= j < |r[0]| ==> !OccursAt(s, sep, j)
    ensures |r| == 2 ==>
      var from := |r[0]| + |sep|;
      && from + |r[1]| <= |s|
      && s[from..from + |r[1]|] == r[1]
      && (from + |r[1]| == |s| || OccursAt(s, sep, from + |r[1]|))
      && forall j :: from <= j < from + |r[1]| ==> !OccursAt(s, sep, j)
  {
    match IndexOf(s, sep)
    case None => [s]
    case Some(i) =>
      var from := i + |sep|;
      match IndexFrom(s, sep, from)
      case None => [s[..i], s[from..]]
      case Some(e) => [s[..i], s[from..e]]
  }

  /** `s.startsWith(p)`. */
  predicate StartsWith(s: string, p: string)
  {
    |p| <= |s| && s[..|p|] == p
  }

  /** No `sep` starts inside `s`. */
  lemma NoOccurrence(s: string, sep: string)
    requires !Contains(s, sep)
    ensures forall j :: !OccursAt(s, sep, j)
  {
    forall j ensures !OccursAt(s, sep, j) {
      if 0 <= j { assert !OccursAt(s, sep, j); }
    }
  }

  /** A separator with none before it is the first one: there is only one such position. */
  lemma FirstOccurrence(s: string, sep: string, m: nat, n: nat)
    requires OccursAt(s, sep, m) && forall j :: 0 <= j < m ==> !OccursAt(s, sep, j)
    requires OccursAt(s, sep, n) && forall j :: 0 <= j < n ==> !OccursAt(s, sep, j)
    ensures m == n
  {
  }

  /** The separators `\r\n` and `\r\n\r\n`, character by character. */
  lemma SeparatorChars(s: string, j: int)
    ensures OccursAt(s, CRLF, j) <==> 0 <= j && j + 2 <= |s| && s[j] == '\r' && s[j + 1] == '\n'
    ensures OccursAt(s, CRLFCRLF, j)
        <==> 0 <= j && j + 4 <= |s| && s[j] == '\r' && s[j + 1] == '\n' && s[j + 2] == '\r' && s[j + 3] == '\n'
  {
    if 0 <= j && j + 2 <= |s| && s[j] == '\r' && s[j + 1] == '\n' {
      assert s[j..j + 2] == CRLF;
    }
    if 0 <= j && j + 4 <= |s| {
      var w := s[j..j + 4];
      assert w[0] == s[j] && w[1] == s[j + 1] && w[2] == s[j + 2] && w[3] == s[j + 3];
      if s[j] == '\r' && s[j + 1] == '\n' && s[j + 2] == '\r' && s[j + 3] == '\n' {
        assert w == CRLFCRLF;
      }
    }
  }

  /** Occurrences in a suffix are occurrences in the whole text, shifted. */
  lemma OccursInSuffix(s: string, k: nat, sep: string, j: int)
    requires k <= |s|
    ensures OccursAt(s[k..], sep, j) <==> k <= k + j && OccursAt(s, sep, k + j)
  {
    if 0 <= j && j + |sep| <= |s| - k {
      assert s[k..][j..j + |sep|] == s[k + j..k + j + |sep|];
    }
  }

  lemma NoneInSuffix(s: string, k: nat, sep: string, n: nat)
    requires k <= |s|
    requires forall p :: 0 <= p < n ==> !OccursAt(s[k..], sep, p)
    ensures forall j :: k <= j < k + n ==> !OccursAt(s, sep, j)
  {
    forall j | k <= j < k + n
      ensures !OccursAt(s, sep, j)
    {
      OccursInSuffix(s, k, sep, j - k);
    }
  }

  /** `s.split(sep, 2)` of a text laid out as `head`, `sep`, `mid` and then the end or another
      `sep`, with no separator starting inside `head` or `mid`, is `[head, mid]`. */
  lemma SplitAt(s: string, sep: string, head: string, mid: string, tail: string)
    requires s == head + sep + mid + tail
    requires forall j :: 0 <= j < |head| ==> !OccursAt(s, sep, j)
    requires forall j :: |head| + |sep| <= j < |head| + |sep| + |mid| ==> !OccursAt(s, sep, j)
    requires |tail| == 0 || StartsWith(tail, sep)
    ensures SplitLimit2(s, sep) == [head, mid]
  {
    var from := |head| + |sep|;
    var e := from + |mid|;
    Layout(s, sep, head, mid, tail);
    IndexIs(s, sep, 0, |head|);
    IndexIs(s, sep, from, e);
  }

  /** The search from `k` finds the separator at `n` when none starts before it, and finds
      none when the text ends at `n` without one. */
  lemma IndexIs(s: string, sep: string, k: nat, n: nat)
    requires k <= n <= |s|
    requires forall j :: k <= j < n ==> !OccursAt(s, sep, j)
    requires n == |s| || OccursAt(s, sep, n)
    ensures IndexFrom(s, sep, k) == if OccursAt(s, sep, n) then Some(n) else None
  {
  }

  /** Where the pieces of `head + sep + mid + tail` sit. */
  lemma Layout(s: string, sep: string, head: string, mid: string, tail: string)
    requires s == head + sep + mid + tail
    requires |tail| == 0 || StartsWith(tail, sep)
    ensures OccursAt(s, sep, |head|) && s[..|head|] == head
    ensures s[|head| + |sep|..|head| + |sep| + |mid|] == mid
    ensures |head| + |sep| + |mid| == |s| || OccursAt(s, sep, |head| + |sep| + |mid|)
  {
    var from := |head| + |sep|;
    var e := from + |mid|;
    assert s[|head|..from] == sep;
    if |tail| > 0 {
      assert s[e..e + |sep|] == tail[..|sep|];
    }
  }

  // ---------------------------------------------------------------------------------------
  // trim

  /** The characters JavaScript's `trim` removes: WhiteSpace and LineTerminator code points. */
  predicate IsJsSpace(c: char)
  {
    || c == '\t' || c == '\n' || c == '\U{B}' || c == '\U{C}' || c == '\r' || c == ' '
    || c == '\U{A0}' || c == '\U{1680}' || ('\U{2000}' <= c <= '\U{200A}')
    || c == '\U{2028}' || c == '\U{2029}' || c == '\U{202F}' || c == '\U{205F}'
    || c == '\U{3000}' || c == '\U{FEFF}'
  }

  function TrimStart(s: string): (r: string)
    ensures |r| <= |s| && r == s[|s| - |r|..]
    ensures |r| == 0 || !IsJsSpace(r[0])
    ensures forall k :: 0 <= k < |s| - |r| ==> IsJsSpace(s[k])
    decreases |s|
  {
    if |s| > 0 && IsJsSpace(s[0]) then
      var r := TrimStart(s[1..]);
      assert forall k :: 1 <= k < |s| - |r| ==> s[k] == s[1..][k - 1];
      r
    else s
  }

  function TrimEnd(s: string): (r: string)
    ensures |r| <= |s| && r == s[..|r|]
    ensures |r| == 0 || !IsJsSpace(r[|r| - 1])
    ensures forall k :: |r| <= k < |s| ==> IsJsSpace(s[k])
    decreases |s|
  {
    if |s| > 0 && IsJsSpace(s[|s| - 1]) then
      var r := TrimEnd(s[..|s| - 1]);
      assert forall k :: |r| <= k < |s| - 1 ==> s[k] == s[..|s| - 1][k];
      r
    else s
  }

  /** `s.trim()`: `s` without its leading and trailing white space. */
  function Trim(s: string): (r: string)
    ensures exists i, j :: 0 <= i <= j <= |s| && r == s[i..j]
    ensures |r| == 0 || (!IsJsSpace(r[0]) && !IsJsSpace(r[|r| - 1]))
    ensures |r| == 0 <==> forall k :: 0 <= k < |s| ==> IsJsSpace(s[k])
  {
    TrimBlank(s);
    var t := TrimStart(s);
    var r := TrimEnd(t);
    assert r == s[|s| - |t|..|s| - |t| + |r|];
    r
  }

  lemma TrimBlank(s: string)
    ensures var t := TrimStart(s); var r := TrimEnd(t);
      && (|r| > 0 ==> r[0] == t[0] && !IsJsSpace(r[0]))
      && (|r| == 0 <==> forall k :: 0 <= k < |s| ==> IsJsSpace(s[k]))
  {
    var t := TrimStart(s);
    var r := TrimEnd(t);
    if |r| == 0 {
      assert |t| == 0;
    } else {
      assert !IsJsSpace(s[|s| - |t|]);
    }
  }

  /** `s.slice(0, n)` for a non-negative `n`: at most the first `n` characters. */
  function Prefix(s: string, n: nat): (r: string)
    ensures |r| == if n < |s| then n else |s|
    ensures r == s[..|r|]
  {
    if n < |s| then s[..n] else s
  }

  /** `s.slice(n)` for a non-negative `n`: everything from position `n` on. */
  function DropFirst(s: string, n: nat): (r: string)
    ensures |r| == if n < |s| then |s| - n else 0
    ensures r == s[|s| - |r|..]
  {
    if n < |s| then s[n..] else ""
  }

  // ---------------------------------------------------------------------------------------
  // concatenation of a list of reads

  /** The reads laid end to end, in order. */
  function Concat(xs: seq<string>): string
  {
    if |xs| == 0 then "" else Concat(AllButLast(xs)) + Last(xs)
  }

  /** `chunks.reduce((acc, chunk) => acc + chunk.length, 0)`. */
  function TotalLength(xs: seq<string>): nat
  {
    if |xs| == 0 then 0 else TotalLength(AllButLast(xs)) + |Last(xs)|
  }

  lemma {:induction false} ConcatLength(xs: seq<string>)
    ensures |Concat(xs)| == TotalLength(xs)
  {
    if |xs| > 0 { ConcatLength(AllButLast(xs)); }
  }

  lemma ConcatSnoc(xs: seq<string>, x: string)
    ensures Concat(xs + [x]) == Concat(xs) + x
    ensures TotalLength(xs + [x]) == TotalLength(xs) + |x|
  {
    assert AllButLast(xs + [x]) == xs;
  }

  /** Concatenation does not depend on how the text was grouped into reads. */
  lemma {:induction false} ConcatAppend(xs: seq<string>, ys: seq<string>)
    ensures Concat(xs + ys) == Concat(xs) + Concat(ys)
    decreases |ys|
  {
    if |ys| > 0 {
      ConcatAppend(xs, AllButLast(ys));
      assert xs + ys == (xs + AllButLast(ys)) + [Last(ys)];
      ConcatSnoc(xs + AllButLast(ys), Last(ys));
    } else {
      assert xs + ys == xs;
    }
  }

  /** A prefix of the reads never has more characters than all of them. */
  lemma {:induction false} TotalLengthPrefix(xs: seq<string>, k: nat)
    requires k <= |xs|
    ensures TotalLength(xs[..k]) <= TotalLength(xs)
    decreases |xs|
  {
    if k < |xs| {
      assert xs[..k] == AllButLast(xs)[..k];
      TotalLengthPrefix(AllButLast(xs), k);
    } else {
      assert xs[..k] == xs;
    }
  }
}
