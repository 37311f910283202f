/** Byte strings and the few operations of Go's `bytes` and `strings`
    packages that the request parser relies on: `Split`, `SplitN(_, _, 2)`,
    `Index`, `HasPrefix` and `TrimSpace`. A Go `string` and a `[]byte` are
    both sequences of bytes, so converting one into the other is the identity
    here. */
module ByteStrings {
  import opened Wrappers

  /** One byte, written as a character below 256 so that literals read naturally. */
  type Byte = c: char | c as int < 256 witness 'A'

  type Bytes = seq<Byte>

  /** The line delimiter of an HTTP/1.x message. */
  const CRLF: Bytes := "\r\n"

  /** The ASCII white space that `strings.TrimSpace` removes: '\t', '\n',
      '\v', '\f', '\r' (bytes 9 to 13) and ' '. */
  predicate IsSpace(b: Byte) {
    b == ' ' || '\t' <= b <= '\r'
  }

  predicate AllSpace(s: Bytes) {
    forall i :: 0 <= i < |s| ==> IsSpace(s[i])
  }

  /** Neither end of `s` is white space. */
  predicate IsTrimmed(s: Bytes) {
    s == [] || (!IsSpace(s[0]) && !IsSpace(s[|s| - 1]))
  }

  predicate IsDigit(b: Byte) {
    '0' <= b <= '9'
  }

  predicate HasPrefix(s: Bytes, prefix: Bytes) {
    |prefix| <= |s| && s[..|prefix|] == prefix
  }

  /** `sep` occurs in `s` starting at position `i`. */
  predicate OccursAt(s: Bytes, sep: Bytes, i: int) {
    0 <= i && i + |sep| <= |s| && s[i..i + |sep|] == sep
  }

  /** `sep` occurs somewhere inside `s`. */
  predicate Contains(s: Bytes, sep: Bytes) {
    exists i :: 0 <= i <= |s| && OccursAt(s, sep, i)
  }

  /** `strings.Index` / `bytes.IndexByte`: the first position of `c` in `s`,
      None where Go returns -1. */
  function IndexOf(s: Bytes, c: Byte): (r: Option<nat>)
    ensures r.None? <==> c !in s
    ensures r.Some? ==> r.value < |s| && s[r.value] == c && c !in s[..r.value]
  {
    if |s| == 0 then None
    else if s[0] == c then Some(0)
    else
      match IndexOf(s[1..], c)
      case None => None
      case Some(i) =>
        assert s[..i + 1] == [s[0]] + s[1..][..i];
        Some(i + 1)
  }

  /** `bytes.Split(s, sep)` and `strings.Split(s, sep)` for a non-empty
      separator: the pieces between the occurrences of `sep` found from left
      to right without overlap. */
  function Split(s: Bytes, sep: Bytes): (r: seq<Bytes>)
    requires |sep| > 0
    ensures |r| >= 1
    decreases |s|
  {
    if |s| < |sep| then [s]
    else if s[..|sep|] == sep then [[]] + Split(s[|sep|..], sep)
    else
      var rest := Split(s[1..], sep);
      [[s[0]] + rest[0]] + rest[1..]
  }

  /** The pieces glued back together with `sep` between neighbours. */
  function Join(parts: seq<Bytes>, sep: Bytes): Bytes
    requires |parts| >= 1
  {
    if |parts| == 1 then parts[0] else parts[0] + sep + Join(parts[1..], sep)
  }

  /** Gluing bytes in front of the first piece glues them in front of the whole. */
  lemma JoinPrepend(x: Bytes, parts: seq<Bytes>, sep: Bytes)
    requires |parts| >= 1
    ensures Join([x + parts[0]] + parts[1..], sep) == x + Join(parts, sep)
  {
    var q := [x + parts[0]] + parts[1..];
    assert q[1..] == parts[1..];
  }

  /** The last piece closes the joined sequence. */
  lemma {:induction false} JoinSnoc(parts: seq<Bytes>, sep: Bytes)
    requires |parts| >= 2
    ensures Join(parts, sep) == Join(parts[..|parts| - 1], sep) + sep + parts[|parts| - 1]
    decreases |parts|
  {
    if |parts| > 2 {
      JoinSnoc(parts[1..], sep);
      assert parts[1..][..|parts| - 2] == parts[..|parts| - 1][1..];
    }
  }

  /** Joining what `Split` cut gives the input back. */
  lemma {:induction false} SplitThenJoin(s: Bytes, sep: Bytes)
    requires |sep| > 0
    ensures Join(Split(s, sep), sep) == s
    decreases |s|
  {
    if |s| < |sep| {
      assert Split(s, sep) == [s];
    } else if s[..|sep|] == sep {
      var rest := Split(s[|sep|..], sep);
      assert Split(s, sep) == [[]] + rest;
      SplitThenJoin(s[|sep|..], sep);
      assert ([[]] + rest)[1..] == rest;
      assert s == sep + s[|sep|..];
    } else {
      var rest := Split(s[1..], sep);
      assert Split(s, sep) == [[s[0]] + rest[0]] + rest[1..];
      SplitThenJoin(s[1..], sep);
      JoinPrepend([s[0]], rest, sep);
      assert s == [s[0]] + s[1..];
    }
  }

  /** The first piece of a split is a prefix of the input. */
  lemma {:induction false} SplitFirstIsPrefix(s: Bytes, sep: Bytes)
    requires |sep| > 0
    ensures HasPrefix(s, Split(s, sep)[0])
    decreases |s|
  {
    if |s| < |sep| {
    } else if s[..|sep|] == sep {
    } else {
      SplitFirstIsPrefix(s[1..], sep);
    }
  }

  /** No piece that `Split` returns contains the separator. */
  lemma {:induction false} SplitPiecesAvoidSep(s: Bytes, sep: Bytes)
    requires |sep| > 0
    ensures forall p <- Split(s, sep) :: !Contains(p, sep)
    decreases |s|
  {
    if |s| < |sep| {
    } else if s[..|sep|] == sep {
      SplitPiecesAvoidSep(s[|sep|..], sep);
    } else {
      var rest := Split(s[1..], sep);
      SplitPiecesAvoidSep(s[1..], sep);
      SplitFirstIsPrefix(s[1..], sep);
      var p := [s[0]] + rest[0];
      forall i | 0 <= i <= |p|
        ensures !OccursAt(p, sep, i)
      {
        assert rest[0] in rest;
        assert HasPrefix(s[1..], rest[0]);
        if i == 0 {
          if |sep| <= |p| {
            assert p[..|sep|] == s[..|sep|];
          }
        } else if i - 1 + |sep| <= |rest[0]| {
          assert p[i..i + |sep|] == rest[0][i - 1..i - 1 + |sep|];
          assert !OccursAt(rest[0], sep, i - 1);
        }
      }
      assert Split(s, sep) == [p] + rest[1..];
    }
  }

  /** Splitting on one byte: as many pieces as occurrences plus one, and no
      piece contains that byte. */
  lemma {:induction false} SplitOnByte(s: Bytes, c: Byte)
    ensures |Split(s, [c])| == multiset(s)[c] + 1
    ensures forall p <- Split(s, [c]) :: c !in p
    decreases |s|
  {
    if |s| < 1 {
    } else {
      SplitOnByte(s[1..], c);
      assert s == [s[0]] + s[1..];
      assert multiset(s) == multiset{s[0]} + multiset(s[1..]);
      if s[..1] == [c] {
        assert s[0] == c;
      } else {
        assert s[0] != c;
      }
    }
  }

  /** Separators for which cutting after a piece can never be confused by an
      occurrence that straddles the piece and the separator: one byte, or two
      different bytes such as CRLF. */
  predicate SelfDisjoint(sep: Bytes) {
    |sep| == 1 || (|sep| == 2 && sep[0] != sep[1])
  }

  /** A piece free of the separator survives `Split` whole. */
  lemma {:induction false} SplitWithoutSep(p: Bytes, sep: Bytes)
    requires |sep| > 0 && !Contains(p, sep)
    ensures Split(p, sep) == [p]
    decreases |p|
  {
    if |p| >= |sep| {
      assert !OccursAt(p, sep, 0);
      NoSepInTail(p, sep);
      SplitWithoutSep(p[1..], sep);
      assert p == [p[0]] + p[1..];
    }
  }

  /** Dropping the first byte cannot create an occurrence. */
  lemma NoSepInTail(p: Bytes, sep: Bytes)
    requires |p| > 0 && !Contains(p, sep)
    ensures !Contains(p[1..], sep)
  {
    forall i | 0 <= i <= |p[1..]| && OccursAt(p[1..], sep, i)
      ensures false
    {
      assert p[i + 1..i + 1 + |sep|] == p[1..][i..i + |sep|];
      assert OccursAt(p, sep, i + 1);
    }
  }

  /** A separator-free piece followed by the separator is cut off as the
      first piece. */
  lemma {:induction false} SplitAfterPiece(p: Bytes, sep: Bytes, x: Bytes)
    requires SelfDisjoint(sep) && !Contains(p, sep)
    ensures Split(p + sep + x, sep) == [p] + Split(x, sep)
    decreases |p|
  {
    var s := p + sep + x;
    if p == [] {
      assert s == sep + x;
      assert s[..|sep|] == sep && s[|sep|..] == x;
    } else {
      if |p| >= |sep| {
        assert !OccursAt(p, sep, 0);
        assert s[..|sep|] == p[..|sep|];
      } else {
        assert s[..|sep|] == [p[0], sep[0]];
      }
      NoSepInTail(p, sep);
      SplitAfterPiece(p[1..], sep, x);
      assert s[1..] == p[1..] + sep + x;
      assert p == [p[0]] + p[1..];
    }
  }

  /** Cutting a joined sequence of separator-free pieces gives the pieces back. */
  lemma {:induction false} JoinThenSplit(parts: seq<Bytes>, sep: Bytes)
    requires |parts| >= 1 && SelfDisjoint(sep)
    requires forall q <- parts :: !Contains(q, sep)
    ensures Split(Join(parts, sep), sep) == parts
    decreases |parts|
  {
    assert !Contains(parts[0], sep) by {
      assert parts[0] in parts;
    }
    if |parts| == 1 {
      SplitWithoutSep(parts[0], sep);
    } else {
      var rest := parts[1..];
      assert Split(Join(rest, sep), sep) == rest by {
        assert forall q <- rest :: q in parts;
        JoinThenSplit(rest, sep);
      }
      assert Split(parts[0] + sep + Join(rest, sep), sep) == [parts[0]] + Split(Join(rest, sep), sep) by {
        SplitAfterPiece(parts[0], sep, Join(rest, sep));
      }
      assert parts == [parts[0]] + rest;
    }
  }

  /** Separator-free pieces joined and followed by the separator are cut
      back into those pieces, ahead of whatever comes after. */
  lemma {:induction false} JoinThenSplitAppend(parts: seq<Bytes>, sep: Bytes, x: Bytes)
    requires |parts| >= 1 && SelfDisjoint(sep)
    requires forall q <- parts :: !Contains(q, sep)
    ensures Split(Join(parts, sep) + sep + x, sep) == parts + Split(x, sep)
    decreases |parts|
  {
    assert !Contains(parts[0], sep) by {
      assert parts[0] in parts;
    }
    if |parts| == 1 {
      SplitAfterPiece(parts[0], sep, x);
    } else {
      var rest := parts[1..];
      var tail := Join(rest, sep) + sep + x;
      assert Split(tail, sep) == rest + Split(x, sep) by {
        assert forall q <- rest :: q in parts;
        JoinThenSplitAppend(rest, sep, x);
      }
      assert Join(parts, sep) + sep + x == parts[0] + sep + tail;
      assert Split(parts[0] + sep + tail, sep) == [parts[0]] + Split(tail, sep) by {
        SplitAfterPiece(parts[0], sep, tail);
      }
      assert parts == [parts[0]] + rest;
    }
  }

  /** A byte missing from every piece and from the separator is missing
      from their join. */
  lemma {:induction false} JoinAvoidsByte(parts: seq<Bytes>, sep: Bytes, c: Byte)
    requires |parts| >= 1 && c !in sep
    requires forall q <- parts :: c !in q
    ensures c !in Join(parts, sep)
    decreases |parts|
  {
    assert parts[0] in parts;
    if |parts| > 1 {
      assert forall q <- parts[1..] :: q in parts;
      JoinAvoidsByte(parts[1..], sep, c);
    }
  }

  /** A one-byte separator occurs exactly where its byte does. */
  lemma NoByteNoContains(s: Bytes, c: Byte)
    requires c !in s
    ensures !Contains(s, [c])
  {
    forall i | 0 <= i <= |s|
      ensures !OccursAt(s, [c], i)
    {
      if i + 1 <= |s| {
        assert s[i..i + 1][0] == s[i];
      }
    }
  }

  /** A byte string with no '\r' holds no CRLF. */
  lemma NoCRNoCRLF(s: Bytes)
    requires '\r' !in s
    ensures !Contains(s, CRLF)
  {
    forall i | 0 <= i <= |s|
      ensures !OccursAt(s, CRLF, i)
    {
      if i + 2 <= |s| {
        assert s[i..i + 2][0] == s[i];
      }
    }
  }

  /** Number of white-space bytes at the start of `s`. */
  function LeadingSpaces(s: Bytes): (n: nat)
    ensures n <= |s|
  {
    if |s| > 0 && IsSpace(s[0]) then 1 + LeadingSpaces(s[1..]) else 0
  }

  /** Number of white-space bytes at the end of `s`. */
  function TrailingSpaces(s: Bytes): (n: nat)
    ensures n <= |s|
  {
    if |s| > 0 && IsSpace(s[|s| - 1]) then 1 + TrailingSpaces(s[..|s| - 1]) else 0
  }

  /** `LeadingSpaces` counts a maximal run of white space. */
  lemma {:induction false} LeadingSpacesShape(s: Bytes)
    ensures var n := LeadingSpaces(s); AllSpace(s[..n]) && (n == |s| || !IsSpace(s[n]))
  {
    if |s| > 0 && IsSpace(s[0]) {
      LeadingSpacesShape(s[1..]);
      var n := LeadingSpaces(s);
      assert s[..n] == [s[0]] + s[1..][..n - 1];
    }
  }

  /** `TrailingSpaces` counts a maximal run of white space. */
  lemma {:induction false} TrailingSpacesShape(s: Bytes)
    ensures var n := TrailingSpaces(s); AllSpace(s[|s| - n..]) && (n == |s| || !IsSpace(s[|s| - 1 - n]))
  {
    if |s| > 0 && IsSpace(s[|s| - 1]) {
      var u := s[..|s| - 1];
      TrailingSpacesShape(u);
      var n := TrailingSpaces(s);
      assert s[|s| - n..] == u[|u| - (n - 1)..] + [s[|s| - 1]];
    }
  }

  /** `strings.TrimSpace` on ASCII white space: `s` without the white space at
      either end. */
  function TrimSpace(s: Bytes): (r: Bytes)
    ensures |r| <= |s|
  {
    var t := s[LeadingSpaces(s)..];
    t[..|t| - TrailingSpaces(t)]
  }

  /** Cutting a maximal run of white space off each end of `s` leaves a
      trimmed infix. */
  lemma CutSpaceRuns(s: Bytes, a: nat, b: nat)
    requires a + b <= |s|
    requires AllSpace(s[..a]) && (a == |s| || !IsSpace(s[a]))
    requires AllSpace(s[|s| - b..]) && (a + b == |s| || !IsSpace(s[|s| - 1 - b]))
    ensures IsTrimmed(s[a..|s| - b])
  {
  }

  /** What `TrimSpace` cuts is white space, what it keeps starts at the first
      byte that is not white space, and neither end of it is white space. */
  lemma TrimSpaceShape(s: Bytes)
    ensures var r, a := TrimSpace(s), LeadingSpaces(s);
      && IsTrimmed(r)
      && AllSpace(s[..a])
      && a + |r| <= |s|
      && r == s[a..a + |r|]
      && AllSpace(s[a + |r|..])
  {
    var a := LeadingSpaces(s);
    var t := s[a..];
    var b := TrailingSpaces(t);
    assert TrimSpace(s) == s[a..|s| - b] by {
      assert t[..|t| - b] == s[a..|s| - b];
    }
    LeadingSpacesShape(s);
    assert AllSpace(s[|s| - b..]) && (a + b == |s| || !IsSpace(s[|s| - 1 - b])) by {
      TrailingSpacesShape(t);
      assert t[|t| - b..] == s[|s| - b..];
    }
    CutSpaceRuns(s, a, b);
  }

  /** Only one infix of a byte string is trimmed and padded by white space
      on both sides. */
  lemma TrimmedCoreUnique(l: Bytes, m: Bytes, r: Bytes, l2: Bytes, m2: Bytes, r2: Bytes)
    requires l + m + r == l2 + m2 + r2
    requires AllSpace(l) && AllSpace(r) && AllSpace(l2) && AllSpace(r2)
    requires IsTrimmed(m) && IsTrimmed(m2)
    ensures m == m2
  {
    var s := l + m + r;
    assert forall i :: 0 <= i < |l| ==> s[i] == l[i];
    assert forall i :: 0 <= i < |m| ==> s[|l| + i] == m[i];
    assert forall i :: 0 <= i < |r| ==> s[|l| + |m| + i] == r[i];
    assert forall i :: 0 <= i < |l2| ==> s[i] == l2[i];
    assert forall i :: 0 <= i < |m2| ==> s[|l2| + i] == m2[i];
    assert forall i :: 0 <= i < |r2| ==> s[|l2| + |m2| + i] == r2[i];
    if m != [] && m2 != [] {
      assert |l| == |l2|;
      assert |r| == |r2|;
      assert m == s[|l|..|l| + |m|] == m2;
    }
  }

  /** Trimming undoes padding with white space on both sides. */
  lemma TrimSpaceOfPadded(l: Bytes, m: Bytes, r: Bytes)
    requires AllSpace(l) && AllSpace(r) && IsTrimmed(m)
    ensures TrimSpace(l + m + r) == m
  {
    var s := l + m + r;
    var t := TrimSpace(s);
    var a := LeadingSpaces(s);
    TrimSpaceShape(s);
    assert s == s[..a] + t + s[a + |t|..];
    TrimmedCoreUnique(l, m, r, s[..a], t, s[a + |t|..]);
  }

  /** Trimming twice trims no more than once. */
  lemma TrimSpaceIdempotent(s: Bytes)
    ensures TrimSpace(TrimSpace(s)) == TrimSpace(s)
  {
    var t := TrimSpace(s);
    TrimSpaceShape(s);
    assert t == [] + t + [];
    TrimSpaceOfPadded([], t, []);
  }

  /** White space in front makes no difference to trimming. */
  lemma TrimSpaceDropsLeading(l: Bytes, s: Bytes)
    requires AllSpace(l)
    ensures TrimSpace(l + s) == TrimSpace(s)
  {
    TrimSpaceShape(s);
    var a := LeadingSpaces(s);
    var r := TrimSpace(s);
    assert l + s == (l + s[..a]) + r + s[a + |r|..];
    TrimSpaceOfPadded(l + s[..a], r, s[a + |r|..]);
  }

  /** White space behind a string does not change its trimmed form. */
  lemma TrimSpaceDropsTrailing(s: Bytes, r: Bytes)
    requires AllSpace(r)
    ensures TrimSpace(s + r) == TrimSpace(s)
  {
    TrimSpaceShape(s);
    var a := LeadingSpaces(s);
    var t := TrimSpace(s);
    assert s + r == s[..a] + t + (s[a + |t|..] + r);
    TrimSpaceOfPadded(s[..a], t, s[a + |t|..] + r);
  }
}
