/** The JavaScript string operations the application relies on, over
    sequences: `startsWith`, `indexOf`/`includes`, `split` with a non-empty
    separator, `Array.prototype.join`, and `trim`. */
module Strings {
  import opened Wrappers

  predicate HasPrefix<T(==)>(s: seq<T>, p: seq<T>) {
    |p| <= |s| && s[..|p|] == p
  }

  predicate HasSuffix<T(==)>(s: seq<T>, p: seq<T>) {
    |p| <= |s| && s[|s| - |p|..] == p
  }

  /** `p` occurs in `s` starting at index `i`. */
  predicate OccursAt<T(==)>(s: seq<T>, p: seq<T>, i: nat) {
    i + |p| <= |s| && s[i..i + |p|] == p
  }

  /** `s.indexOf(p, from)`: the first occurrence at or after `from`. */
  function IndexOfFrom<T(==)>(s: seq<T>, p: seq<T>, from: nat): (r: Option<nat>)
    ensures r.Some? ==> from <= r.value && OccursAt(s, p, r.value)
    ensures r.Some? ==> forall j :: from <= j < r.value ==> !OccursAt(s, p, j)
    ensures r.None? ==> forall j :: from <= j ==> !OccursAt(s, p, j)
    decreases |s| - from
  {
    if from + |p| > |s| then None
    else if s[from..from + |p|] == p then Some(from)
    else IndexOfFrom(s, p, from + 1)
  }

  function IndexOf<T(==)>(s: seq<T>, p: seq<T>): (r: Option<nat>)
    ensures r.Some? ==> OccursAt(s, p, r.value)
    ensures r.Some? ==> forall j :: 0 <= j < r.value ==> !OccursAt(s, p, j)
    ensures r.None? ==> forall j :: 0 <= j ==> !OccursAt(s, p, j)
  {
    IndexOfFrom(s, p, 0)
  }

  /** `s.includes(p)` */
  predicate Contains<T(==)>(s: seq<T>, p: seq<T>) {
    IndexOf(s, p).Some?
  }

  /** `s.split(sep)` for a non-empty separator: the pieces between
      successive non-overlapping occurrences, scanning left to right. */
  function Split<T(==)>(s: seq<T>, sep: seq<T>): (r: seq<seq<T>>)
    requires |sep| > 0
    ensures |r| >= 1
    decreases |s|
  {
    match IndexOf(s, sep)
    case None => [s]
    case Some(i) => [s[..i]] + Split(s[i + |sep|..], sep)
  }

  /** A split yields more than one piece exactly when the separator
      occurs. */
  lemma SplitCount<T>(s: seq<T>, sep: seq<T>)
    requires |sep| > 0
    ensures |Split(s, sep)| >= 2 <==> Contains(s, sep)
  {
  }

  /** `xs.join(sep)`; an empty array joins to the empty string. */
  function Join<T>(xs: seq<seq<T>>, sep: seq<T>): seq<T>
  {
    if |xs| == 0 then []
    else if |xs| == 1 then xs[0]
    else xs[0] + sep + Join(xs[1..], sep)
  }

  lemma JoinCons<T>(x: seq<T>, r: seq<seq<T>>, sep: seq<T>)
    requires |r| >= 1
    ensures Join([x] + r, sep) == x + sep + Join(r, sep)
  {
    assert ([x] + r)[1..] == r;
  }

  lemma Around<T>(s: seq<T>, i: nat, n: nat)
    requires i + n <= |s|
    ensures s == s[..i] + s[i..i + n] + s[i + n..]
  {
  }

  /** One step of a split: the piece before the first separator, then the
      split of what follows it. */
  lemma SplitStep<T>(s: seq<T>, sep: seq<T>)
    requires |sep| > 0 && Contains(s, sep)
    ensures var i := IndexOf(s, sep).value;
      && OccursAt(s, sep, i)
      && Split(s, sep) == [s[..i]] + Split(s[i + |sep|..], sep)
  {
  }

  /** Joining the pieces of a split with the same separator gives back the
      original string: `split` loses nothing. */
  lemma {:induction false} JoinSplit<T>(s: seq<T>, sep: seq<T>)
    requires |sep| > 0
    ensures Join(Split(s, sep), sep) == s
    decreases |s|
  {
    if !Contains(s, sep) {
      assert Split(s, sep) == [s];
    } else {
      SplitStep(s, sep);
      var i := IndexOf(s, sep).value;
      var rest := s[i + |sep|..];
      calc {
        Join(Split(s, sep), sep);
        { JoinCons(s[..i], Split(rest, sep), sep); }
        s[..i] + sep + Join(Split(rest, sep), sep);
        { JoinSplit(rest, sep); }
        s[..i] + sep + rest;
        { assert s[i..i + |sep|] == sep; Around(s, i, |sep|); }
        s;
      }
    }
  }

  /** No piece of a split contains the separator. */
  lemma {:induction false} SplitPiecesFree<T>(s: seq<T>, sep: seq<T>, k: nat)
    requires |sep| > 0 && k < |Split(s, sep)|
    ensures !Contains(Split(s, sep)[k], sep)
    decreases |s|
  {
    match IndexOf(s, sep)
    case None =>
    case Some(i) =>
      var rest := s[i + |sep|..];
      assert Split(s, sep) == [s[..i]] + Split(rest, sep);
      if k == 0 {
        IndexOfPrefix(s, sep, i);
      } else {
        SplitPiecesFree(rest, sep, k - 1);
      }
  }

  /** A one-element pattern occurs exactly when its element is present. */
  lemma ContainsSingle<T>(a: seq<T>, c: T)
    ensures Contains(a, [c]) <==> c in a
  {
    if c in a {
      var j :| 0 <= j < |a| && a[j] == c;
      assert a[j..j + 1] == [c];
      assert OccursAt(a, [c], j);
    } else {
      NoOccurrenceWithoutHead(a, [c]);
    }
  }

  /** A separator cannot occur where its first element is absent. */
  lemma NoOccurrenceWithoutHead<T>(a: seq<T>, sep: seq<T>)
    requires |sep| > 0 && sep[0] !in a
    ensures !Contains(a, sep)
  {
    forall j: nat | j + |sep| <= |a|
      ensures !OccursAt(a, sep, j)
    {
      assert a[j..j + |sep|][0] == a[j];
    }
  }

  /** When the first element of `sep` is absent from `a`, the first
      occurrence of `sep` in `a + sep + b` is right after `a`. */
  lemma IndexOfAfterFree<T>(a: seq<T>, sep: seq<T>, b: seq<T>)
    requires |sep| > 0 && sep[0] !in a
    ensures IndexOf(a + sep + b, sep) == Some(|a|)
  {
    var s := a + sep + b;
    assert OccursAt(s, sep, |a|) by {
      assert s[|a|..|a| + |sep|] == sep;
    }
    forall j: nat | j < |a|
      ensures !OccursAt(s, sep, j)
    {
      assert s[j] == a[j];
      if j + |sep| <= |s| {
        assert s[j..j + |sep|][0] == s[j];
      }
    }
  }

  lemma SplitCons<T>(a: seq<T>, sep: seq<T>, b: seq<T>)
    requires |sep| > 0 && sep[0] !in a
    ensures Split(a + sep + b, sep) == [a] + Split(b, sep)
  {
    var s := a + sep + b;
    IndexOfAfterFree(a, sep, b);
    assert s[..|a|] == a;
    assert s[|a| + |sep|..] == b;
  }

  lemma SplitFree<T>(a: seq<T>, sep: seq<T>)
    requires |sep| > 0 && sep[0] !in a
    ensures Split(a, sep) == [a]
  {
    NoOccurrenceWithoutHead(a, sep);
  }

  /** Splitting a join gives back the pieces, provided no piece holds the
      separator's first element. */
  lemma {:induction false} SplitJoin<T>(xs: seq<seq<T>>, sep: seq<T>)
    requires |sep| > 0 && |xs| >= 1
    requires forall k :: 0 <= k < |xs| ==> sep[0] !in xs[k]
    ensures Split(Join(xs, sep), sep) == xs
    decreases |xs|
  {
    if |xs| == 1 {
      SplitFree(xs[0], sep);
    } else {
      SplitCons(xs[0], sep, Join(xs[1..], sep));
      SplitJoin(xs[1..], sep);
    }
  }

  /** Every piece preceded by `sep`, concatenated. */
  function Prefixed<T>(ps: seq<seq<T>>, sep: seq<T>): seq<T>
    decreases |ps|
  {
    if |ps| == 0 then [] else sep + (ps[0] + Prefixed(ps[1..], sep))
  }

  /** Splitting a head, separator-prefixed pieces and a separated tail
      yields the head, the pieces, then the tail's own pieces. */
  lemma {:induction false} SplitPrefixed<T>(head: seq<T>, ps: seq<seq<T>>, sep: seq<T>, tail: seq<T>)
    requires |sep| > 0 && sep[0] !in head
    requires forall k :: 0 <= k < |ps| ==> sep[0] !in ps[k]
    ensures Split(head + (Prefixed(ps, sep) + (sep + tail)), sep) == [head] + ps + Split(tail, sep)
    decreases |ps|
  {
    if |ps| == 0 {
      assert head + (Prefixed(ps, sep) + (sep + tail)) == head + sep + tail;
      SplitCons(head, sep, tail);
    } else {
      calc {
        Split(head + (Prefixed(ps, sep) + (sep + tail)), sep);
        { SplitPrefixedStep(head, ps, sep, tail); }
        [head] + Split(ps[0] + (Prefixed(ps[1..], sep) + (sep + tail)), sep);
        { SplitPrefixed(ps[0], ps[1..], sep, tail); }
        [head] + ([ps[0]] + ps[1..] + Split(tail, sep));
        { ConsRegroup(head, ps, Split(tail, sep)); }
        [head] + ps + Split(tail, sep);
      }
    }
  }

  lemma SplitPrefixedStep<T>(head: seq<T>, ps: seq<seq<T>>, sep: seq<T>, tail: seq<T>)
    requires |sep| > 0 && sep[0] !in head && |ps| > 0
    ensures Split(head + (Prefixed(ps, sep) + (sep + tail)), sep)
         == [head] + Split(ps[0] + (Prefixed(ps[1..], sep) + (sep + tail)), sep)
  {
    var after := ps[0] + (Prefixed(ps[1..], sep) + (sep + tail));
    assert head + (Prefixed(ps, sep) + (sep + tail)) == head + sep + after;
    SplitCons(head, sep, after);
  }

  lemma ConsRegroup<T>(h: T, xs: seq<T>, t: seq<T>)
    requires |xs| > 0
    ensures [h] + ([xs[0]] + xs[1..] + t) == [h] + xs + t
  {
    assert [xs[0]] + xs[1..] == xs;
  }

  /** A first occurrence inside `a` stays the first occurrence once
      anything is appended to `a`. */
  lemma IndexOfExtend<T>(a: seq<T>, t: seq<T>, p: seq<T>)
    requires IndexOf(a, p).Some?
    ensures IndexOf(a + t, p) == IndexOf(a, p)
  {
    var i := IndexOf(a, p).value;
    var s := a + t;
    assert s[i..i + |p|] == a[i..i + |p|];
    assert OccursAt(s, p, i);
    assert IndexOf(s, p).Some?;
    var j := IndexOf(s, p).value;
    assert j <= i;
    assert s[j..j + |p|] == a[j..j + |p|];
    assert OccursAt(a, p, j);
  }

  /** Cutting `s` at `n` keeps exactly the occurrences that end by `n`, so
      the first one survives when it ends in time and none survives
      otherwise. */
  lemma IndexOfPrefix<T>(s: seq<T>, p: seq<T>, n: nat)
    requires n <= |s|
    ensures IndexOf(s[..n], p) ==
      if IndexOf(s, p).Some? && IndexOf(s, p).value + |p| <= n then IndexOf(s, p) else None
  {
    var a := s[..n];
    forall j: nat | OccursAt(a, p, j)
      ensures OccursAt(s, p, j)
    {
      assert s[j..j + |p|] == a[j..j + |p|];
    }
    match IndexOf(s, p)
    case None =>
    case Some(i) =>
      if i + |p| <= n {
        assert a[i..i + |p|] == s[i..i + |p|];
        assert OccursAt(a, p, i);
      }
  }

  /** The first piece of a split runs up to the first occurrence of the
      separator, or to the end when there is none. */
  lemma FirstPiece<T>(s: seq<T>, sep: seq<T>)
    requires |sep| > 0
    ensures Split(s, sep)[0] == if IndexOf(s, sep).Some? then s[..IndexOf(s, sep).value] else s
  {
  }

  /** A prefix of a sequence free of `p` is free of `p`. */
  /** A suffix of a sequence free of `p` is free of `p`. */
  lemma SuffixFree<T>(s: seq<T>, n: nat, p: seq<T>)
    requires n <= |s| && !Contains(s, p)
    ensures !Contains(s[n..], p)
  {
    forall j: nat | j + |p| <= |s| - n
      ensures !OccursAt(s[n..], p, j)
    {
      var here, there := s[n..][j..j + |p|], s[n + j..n + j + |p|];
      assert |here| == |there|;
      assert forall k :: 0 <= k < |here| ==> here[k] == there[k];
      assert !OccursAt(s, p, n + j);
    }
  }

  lemma NotContainsOfPrefix<T>(s: seq<T>, pre: seq<T>, p: seq<T>)
    requires HasPrefix(s, pre) && !Contains(s, p)
    ensures !Contains(pre, p)
  {
    forall j: nat | j + |p| <= |pre|
      ensures !OccursAt(pre, p, j)
    {
      assert pre[j..j + |p|] == s[j..j + |p|];
      assert !OccursAt(s, p, j);
    }
  }

  /** `s.split(sep)[1].split(c)[0]` for an `s` holding `sep`: the text
      right after the first `sep`, holding neither `c` nor `sep`. */
  lemma SecondPiece<T>(s: seq<T>, sep: seq<T>, c: T)
    requires |sep| > 0 && Contains(s, sep)
    ensures var start := IndexOf(s, sep).value + |sep|;
      var id := Split(Split(s, sep)[1], [c])[0];
      && start <= |s|
      && HasPrefix(s[start..], id)
      && c !in id
      && !Contains(id, sep)
  {
    SecondPieceIs(s, sep);
    var start := IndexOf(s, sep).value + |sep|;
    var rest := s[start..];
    assert Split(s, sep)[1] == Split(rest, sep)[0];
    FirstOfFirst(rest, sep, c);
  }

  /** The same piece runs up to the first `c`, the next `sep` or the
      end. */
  lemma SecondPieceStops<T>(s: seq<T>, sep: seq<T>, c: T)
    requires |sep| > 0 && Contains(s, sep)
    ensures IndexOf(s, sep).value + |sep| <= |s|
    ensures StopsAt(s[IndexOf(s, sep).value + |sep|..], c, sep, |Split(Split(s, sep)[1], [c])[0]|)
  {
    SecondPieceIs(s, sep);
    var start := IndexOf(s, sep).value + |sep|;
    var rest := s[start..];
    assert Split(Split(s, sep)[1], [c])[0] == Split(Split(rest, sep)[0], [c])[0];
    PieceStops(rest, sep, c);
  }

  /** The second piece of a split is the first piece of what follows the
      first separator. */
  lemma SecondPieceIs<T>(s: seq<T>, sep: seq<T>)
    requires |sep| > 0 && Contains(s, sep)
    ensures IndexOf(s, sep).value + |sep| <= |s|
    ensures Split(s, sep)[1] == Split(s[IndexOf(s, sep).value + |sep|..], sep)[0]
  {
    var i := IndexOf(s, sep).value;
    assert Split(s, sep) == [s[..i]] + Split(s[i + |sep|..], sep);
  }

  /** `rest.split(sep)[0].split(c)[0]`: a prefix of `rest` holding neither
      `c` nor `sep`, and stopping where one of them begins or at the end. */
  lemma FirstOfFirst<T>(rest: seq<T>, sep: seq<T>, c: T)
    requires |sep| > 0
    ensures var id := Split(Split(rest, sep)[0], [c])[0];
      HasPrefix(rest, id) && c !in id && !Contains(id, sep)
  {
    var piece := Split(rest, sep)[0];
    var id := Split(piece, [c])[0];
    FirstPiece(rest, sep);
    SplitPiecesFree(rest, sep, 0);
    SplitPiecesFree(piece, [c], 0);
    ContainsSingle(id, c);
    assert HasPrefix(rest, id) by {
      FirstPiece(piece, [c]);
      assert rest[..|id|] == piece[..|id|];
    }
    NotContainsOfPrefix(piece, id, sep);
  }

  /** Position `e` ends a run: at the end, at a `c`, or where `sep`
      begins. */
  predicate StopsAt<T(==)>(s: seq<T>, c: T, sep: seq<T>, e: nat) {
    e == |s| || (e < |s| && s[e] == c) || OccursAt(s, sep, e)
  }

  /** Where the second split stops inside the text after the first
      separator. */
  lemma PieceStops<T>(rest: seq<T>, sep: seq<T>, c: T)
    requires |sep| > 0
    ensures StopsAt(rest, c, sep, |Split(Split(rest, sep)[0], [c])[0]|)
  {
    var piece := Split(rest, sep)[0];
    var id := Split(piece, [c])[0];
    FirstPiece(rest, sep);
    FirstPiece(piece, [c]);
    match IndexOf(piece, [c])
    case Some(k) =>
      assert id == piece[..k] && piece[k] == c;
      assert |piece| <= |rest| && piece == rest[..|piece|];
      assert rest[k] == piece[k];
    case None =>
      assert id == piece;
  }

  /** With a one-element separator, splitting distributes over a separated
      concatenation. */
  lemma {:induction false} SplitAppend<T>(a: seq<T>, c: T, b: seq<T>)
    ensures Split(a + [c] + b, [c]) == Split(a, [c]) + Split(b, [c])
    decreases |a|
  {
    if c !in a {
      SplitCons(a, [c], b);
      SplitFree(a, [c]);
    } else {
      ContainsSingle(a, c);
      var i := IndexOf(a, [c]).value;
      var a' := a[i + 1..];
      IndexOfExtend(a, [c] + b, [c]);
      assert a + [c] + b == a + ([c] + b);
      var s := a + [c] + b;
      assert s[..i] == a[..i];
      assert s[i + 1..] == a' + [c] + b;
      SplitAppend(a', c, b);
    }
  }

  /** UTF-16 code units a character takes: a surrogate pair beyond the
      Basic Multilingual Plane, one unit below it. */
  function Utf16Units(c: char): (n: nat)
    ensures n == 1 <==> (c as int) < 0x1_0000
    ensures 1 <= n <= 2
  {
    if (c as int) < 0x1_0000 then 1 else 2
  }

  /** The UTF-16 code units of a character: the character itself inside
      the Basic Multilingual Plane, a high and a low surrogate beyond it,
      which decode back to the character. */
  function CodeUnits(c: char): (us: seq<nat>)
    ensures |us| == Utf16Units(c)
    ensures |us| == 1 ==> us[0] == c as int
    ensures |us| == 2 ==> 0xD800 <= us[0] < 0xDC00 <= us[1] < 0xE000
    ensures |us| == 2 ==> (us[0] - 0xD800) * 0x400 + (us[1] - 0xDC00) + 0x1_0000 == c as int
  {
    var v := c as int;
    if v < 0x1_0000 then [v]
    else [0xD800 + (v - 0x1_0000) / 0x400, 0xDC00 + (v - 0x1_0000) % 0x400]
  }

  /** JavaScript's `length` of a string: its UTF-16 code units. */
  function Utf16Length(s: string): (n: nat)
    ensures |s| <= n <= 2 * |s|
  {
    if |s| == 0 then 0 else Utf16Units(s[0]) + Utf16Length(s[1..])
  }

  /** A string within the Basic Multilingual Plane is as long in code units
      as in characters, and one that leaves it is longer. */
  lemma {:induction false} Utf16LengthBmp(s: string)
    ensures Utf16Length(s) == |s| <==> forall k :: 0 <= k < |s| ==> (s[k] as int) < 0x1_0000
  {
    if |s| > 0 {
      Utf16LengthBmp(s[1..]);
      assert forall k :: 1 <= k < |s| ==> s[k] == s[1..][k - 1];
      if forall k :: 0 <= k < |s| ==> (s[k] as int) < 0x1_0000 {
        assert forall k :: 0 <= k < |s| - 1 ==> s[1..][k] == s[k + 1];
      }
    }
  }

  /** JavaScript truthiness of a nullable string: present and
      non-empty. */
  predicate Truthy(s: Option<string>) {
    s.Some? && s.value != []
  }

  /** JavaScript's WhiteSpace and LineTerminator code points, which `trim`
      removes. */
  predicate IsWhiteSpace(c: char) {
    c == '\t' || c == '\n' || c == '\U{B}' || c == '\U{C}' || c == '\r' || c == ' '
    || c == '\U{A0}' || c == '\U{1680}' || ('\U{2000}' <= c <= '\U{200A}')
    || c == '\U{2028}' || c == '\U{2029}' || c == '\U{202F}' || c == '\U{205F}'
    || c == '\U{3000}' || c == '\U{FEFF}'
  }

  /** The characters `.` in a JavaScript regular expression does not match. */
  predicate IsLineTerminator(c: char) {
    c == '\n' || c == '\r' || c == '\U{2028}' || c == '\U{2029}'
  }

  function TrimStart(s: string): (r: string)
    ensures |r| <= |s| && s[|s| - |r|..] == r
    ensures |r| > 0 ==> !IsWhiteSpace(r[0])
    ensures forall k :: 0 <= k < |s| - |r| ==> IsWhiteSpace(s[k])
  {
    if |s| > 0 && IsWhiteSpace(s[0]) then TrimStart(s[1..]) else s
  }

  function TrimEnd(s: string): (r: string)
    ensures |r| <= |s| && s[..|r|] == r
    ensures |r| > 0 ==> !IsWhiteSpace(r[|r| - 1])
    ensures forall k :: |r| <= k < |s| ==> IsWhiteSpace(s[k])
  {
    if |s| > 0 && IsWhiteSpace(s[|s| - 1]) then TrimEnd(s[..|s| - 1]) else s
  }

  /** `s.trim()` */
  function Trim(s: string): string {
    TrimEnd(TrimStart(s))
  }

  /** A string that begins and ends with a non-space character is unchanged
      by `trim`. */
  lemma TrimIdentity(s: string)
    requires |s| > 0 && !IsWhiteSpace(s[0]) && !IsWhiteSpace(s[|s| - 1])
    ensures Trim(s) == s
  {
  }
}
