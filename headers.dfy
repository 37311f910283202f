/** The header section of a request: finding where it ends
    (`calculateHeaderLen`) and turning its lines into a map from names to
    value lists (`parseHeaders`). */
module Headers {
  import opened Wrappers
  import opened ByteStrings

  /** Go's `map[string][]string`. */
  type HeaderMap = map<Bytes, seq<Bytes>>

  /** Line `i` is the first empty one of `lines`. */
  predicate IsFirstEmpty(lines: seq<Bytes>, i: int) {
    0 <= i < |lines| && lines[i] == [] && forall j :: 0 <= j < i ==> lines[j] != []
  }

  /** Where the first empty line is, if there is one. */
  function FirstEmpty(lines: seq<Bytes>): (r: Option<nat>)
    ensures r.None? <==> forall j :: 0 <= j < |lines| ==> lines[j] != []
    ensures r.Some? ==> IsFirstEmpty(lines, r.value)
  {
    if lines == [] then None
    else if lines[0] == [] then Some(0)
    else
      match FirstEmpty(lines[1..])
      case None => None
      case Some(i) => Some(i + 1)
  }

  /** At most one line is the first empty one. */
  lemma FirstEmptyUnique(lines: seq<Bytes>, i: int)
    requires IsFirstEmpty(lines, i)
    ensures FirstEmpty(lines) == Some(i)
  {
  }

  /** `calculateHeaderLen`: one past the index of the first empty line, or
      the sentinel -1 when no line is empty. */
  method CalculateHeaderLen(lines: seq<Bytes>) returns (n: int)
    ensures n == -1 <==> forall j :: 0 <= j < |lines| ==> lines[j] != []
    ensures n != -1 ==> 1 <= n <= |lines| && IsFirstEmpty(lines, n - 1)
  {
    for i := 0 to |lines|
      invariant forall j :: 0 <= j < i ==> lines[j] != []
    {
      if lines[i] == [] {
        return i + 1;
      }
    }
    return -1;
  }

  /** `strings.SplitN(line, ":", 2)`: the name before the first colon and
      the raw value after it; None when the line has no colon, where Go
      returns a single piece. */
  function SplitAtColon(line: Bytes): (r: Option<(Bytes, Bytes)>)
    ensures r.None? <==> ':' !in line
    ensures r.Some? ==> ':' !in r.value.0 && line == r.value.0 + [':'] + r.value.1
  {
    match IndexOf(line, ':')
    case None => None
    case Some(i) =>
      assert line == line[..i] + [':'] + line[i + 1..];
      Some((line[..i], line[i + 1..]))
  }

  predicate AllHaveColon(h: seq<Bytes>) {
    forall i :: 0 <= i < |h| ==> ':' in h[i]
  }

  function HeaderName(line: Bytes): Bytes
    requires ':' in line
  {
    SplitAtColon(line).value.0
  }

  function RawValue(line: Bytes): Bytes
    requires ':' in line
  {
    SplitAtColon(line).value.1
  }

  /** `strings.TrimSpace` applied to every piece. */
  function TrimEach(pieces: seq<Bytes>): (r: seq<Bytes>)
    ensures |r| == |pieces|
  {
    seq(|pieces|, i requires 0 <= i < |pieces| => TrimSpace(pieces[i]))
  }

  /** The value list stored for one header line: the raw value trimmed,
      cut at every comma, and each piece trimmed. */
  function HeaderValues(raw: Bytes): (r: seq<Bytes>)
    ensures |r| >= 1
  {
    TrimEach(Split(TrimSpace(raw), [',']))
  }

  /** The map `parseHeaders` builds from lines that all hold a colon: each
      line in turn stores its value list under its name, so a later line
      with the same name replaces an earlier one. */
  function HeaderMapOf(h: seq<Bytes>): (m: HeaderMap)
    requires AllHaveColon(h)
    ensures m == map[] <==> h == []
    decreases |h|
  {
    if h == [] then map[]
    else
      var last := h[|h| - 1];
      var m := HeaderMapOf(h[..|h| - 1])[HeaderName(last) := HeaderValues(RawValue(last))];
      assert HeaderName(last) in m;
      m
  }

  /** Adding one more line to the section stores that line's values under its name. */
  lemma HeaderMapOfSnoc(h: seq<Bytes>, n: nat)
    requires n < |h| && AllHaveColon(h[..n]) && ':' in h[n]
    ensures AllHaveColon(h[..n + 1])
    ensures HeaderMapOf(h[..n + 1]) == HeaderMapOf(h[..n])[HeaderName(h[n]) := HeaderValues(RawValue(h[n]))]
  {
    var g := h[..n + 1];
    assert g[..n] == h[..n] && g[n] == h[n];
  }

  /** The inner loop of `parseHeaders`: every element of `vals` is replaced,
      in place, by its trimmed form. */
  method TrimInPlace(vals: array<Bytes>)
    modifies vals
    ensures vals[..] == TrimEach(old(vals[..]))
  {
    for i := 0 to vals.Length
      invariant forall j :: 0 <= j < i ==> vals[j] == TrimSpace(old(vals[j]))
      invariant forall j :: i <= j < vals.Length ==> vals[j] == old(vals[j])
    {
      vals[i] := TrimSpace(vals[i]);
    }
  }

  /** `parseHeaders`. None stands for the line without a colon, at which the
      source reads `splits[1]` out of range and panics. */
  method ParseHeaders(h: seq<Bytes>) returns (r: Option<HeaderMap>)
    ensures r.Some? <==> AllHaveColon(h)
    ensures r.Some? ==> r.value == HeaderMapOf(h)
  {
    var m: HeaderMap := map[];
    for n := 0 to |h|
      invariant AllHaveColon(h[..n])
      invariant m == HeaderMapOf(h[..n])
    {
      var item := h[n];
      var splits := SplitAtColon(item);
      if splits.None? {
        return None;
      }
      var k := splits.value.0;
      var pieces := Split(TrimSpace(splits.value.1), [',']);
      var vals := new Bytes[|pieces|](i requires 0 <= i < |pieces| => pieces[i]);
      assert vals[..] == pieces;
      TrimInPlace(vals);
      HeaderMapOfSnoc(h, n);
      m := m[k := vals[..]];
    }
    assert h[..|h|] == h;
    r := Some(m);
  }

  /** Splitting `name:raw` at the first colon gives back `name` and `raw`
      whenever `name` holds no colon; `raw` may hold any number of them. */
  lemma SplitAtColonOfLine(name: Bytes, raw: Bytes)
    requires ':' !in name
    ensures SplitAtColon(name + [':'] + raw) == Some((name, raw))
  {
    var line := name + [':'] + raw;
    var r := SplitAtColon(line);
    var n2 := r.value.0;
    assert line[|name|] == ':' && line[|n2|] == ':';
    assert forall k :: 0 <= k < |name| ==> line[k] == name[k];
    assert forall k :: 0 <= k < |n2| ==> line[k] == n2[k];
    assert |n2| == |name|;
    assert n2 == line[..|name|] == name;
    assert r.value.1 == line[|name| + 1..] == raw;
  }

  /** The value list of a line: one element more than the commas of the
      trimmed value (so never empty), each element trimmed and free of
      commas, and the single empty value for a blank value. */
  lemma HeaderValuesShape(raw: Bytes)
    ensures |HeaderValues(raw)| == multiset(TrimSpace(raw))[','] + 1
    ensures forall v <- HeaderValues(raw) :: ',' !in v && IsTrimmed(v)
    ensures AllSpace(raw) ==> HeaderValues(raw) == [[]]
  {
    var t := TrimSpace(raw);
    var pieces := Split(t, [',']);
    SplitOnByte(t, ',');
    forall i | 0 <= i < |pieces|
      ensures ',' !in TrimSpace(pieces[i]) && IsTrimmed(TrimSpace(pieces[i]))
    {
      assert pieces[i] in pieces;
      TrimSpaceShape(pieces[i]);
    }
    if AllSpace(raw) {
      assert raw + [] + [] == raw;
      TrimSpaceOfPadded(raw, [], []);
      assert TrimSpace([]) == [];
    }
  }

  /** Gluing bytes to the outer ends of the first and the last piece glues
      them to the ends of the whole. */
  lemma JoinEnds(q: seq<Bytes>, x: Bytes, y: Bytes, sep: Bytes)
    requires |q| >= 2
    ensures Join([x + q[0]] + q[1..|q| - 1] + [q[|q| - 1] + y], sep) == x + Join(q, sep) + y
  {
    var n := |q|;
    var q2 := q[..n - 1] + [q[n - 1] + y];
    assert Join(q2, sep) == Join(q, sep) + y by {
      assert q2[..n - 1] == q[..n - 1];
      JoinSnoc(q2, sep);
      JoinSnoc(q, sep);
    }
    JoinPrepend(x, q2, sep);
    assert [x + q2[0]] + q2[1..] == [x + q[0]] + q[1..n - 1] + [q[n - 1] + y];
  }

  /** A comma-joined list of at least two pieces, the first of which does
      not start and the last of which does not end with white space, is
      trimmed. */
  lemma JoinIsTrimmed(q: seq<Bytes>)
    requires |q| >= 2
    requires q[0] == [] || !IsSpace(q[0][0])
    requires q[|q| - 1] == [] || !IsSpace(q[|q| - 1][|q[|q| - 1]| - 1])
    ensures IsTrimmed(Join(q, [',']))
  {
    var n := |q|;
    var j := Join(q, [',']);
    assert j == q[0] + [','] + Join(q[1..], [',']);
    assert j[0] == if q[0] == [] then ',' else q[0][0];
    assert j == Join(q[..n - 1], [',']) + [','] + q[n - 1] by {
      JoinSnoc(q, [',']);
    }
    assert j[|j| - 1] == if q[n - 1] == [] then ',' else q[n - 1][|q[n - 1]| - 1];
  }

  /** White space around a comma-joined list whose outer ends are not
      white space is exactly what trimming removes. */
  lemma TrimPaddedJoin(x: Bytes, q: seq<Bytes>, y: Bytes)
    requires |q| >= 2 && AllSpace(x) && AllSpace(y)
    requires q[0] == [] || !IsSpace(q[0][0])
    requires q[|q| - 1] == [] || !IsSpace(q[|q| - 1][|q[|q| - 1]| - 1])
    ensures TrimSpace(x + Join(q, [',']) + y) == Join(q, [','])
  {
    JoinIsTrimmed(q);
    TrimSpaceOfPadded(x, Join(q, [',']), y);
  }

  /** The white space at the front of the first piece and at the back of
      the last piece, and the pieces without it. */
  lemma CutOuterSpace(pieces: seq<Bytes>) returns (x: Bytes, q: seq<Bytes>, y: Bytes)
    requires |pieces| >= 2
    ensures |q| == |pieces| && AllSpace(x) && AllSpace(y)
    ensures pieces[0] == x + q[0] && pieces[|q| - 1] == q[|q| - 1] + y
    ensures forall k :: 0 < k < |q| - 1 ==> q[k] == pieces[k]
    ensures q[0] == [] || !IsSpace(q[0][0])
    ensures q[|q| - 1] == [] || !IsSpace(q[|q| - 1][|q[|q| - 1]| - 1])
  {
    var n := |pieces|;
    var first, last := pieces[0], pieces[n - 1];
    var a, b := LeadingSpaces(first), TrailingSpaces(last);
    LeadingSpacesShape(first);
    TrailingSpacesShape(last);
    x, y := first[..a], last[|last| - b..];
    q := [first[a..]] + pieces[1..n - 1] + [last[..|last| - b]];
    assert first == x + q[0] && last == q[n - 1] + y;
  }

  /** Cutting the outer white space keeps the pieces comma-free and
      changes none of their trimmed forms. */
  lemma CutOuterPieces(pieces: seq<Bytes>, x: Bytes, q: seq<Bytes>, y: Bytes)
    requires |pieces| >= 2 && |q| == |pieces| && AllSpace(x) && AllSpace(y)
    requires pieces[0] == x + q[0] && pieces[|q| - 1] == q[|q| - 1] + y
    requires forall k :: 0 < k < |q| - 1 ==> q[k] == pieces[k]
    requires forall p <- pieces :: ',' !in p
    ensures forall p <- q :: ',' !in p
    ensures TrimEach(q) == TrimEach(pieces)
  {
    var n := |q|;
    forall k | 0 <= k < n
      ensures ',' !in q[k] && TrimSpace(q[k]) == TrimSpace(pieces[k])
    {
      assert pieces[k] in pieces;
      if k == 0 {
        TrimSpaceDropsLeading(x, q[0]);
      } else if k == n - 1 {
        TrimSpaceDropsTrailing(q[n - 1], y);
      }
    }
  }

  /** `HeaderValuesOfPieces` for a value with no comma. */
  lemma HeaderValuesOfOne(p: Bytes)
    requires ',' !in p
    ensures HeaderValues(p) == [TrimSpace(p)]
  {
    var t := TrimSpace(p);
    assert ',' !in t by {
      TrimSpaceShape(p);
    }
    assert Split(t, [',']) == [t] by {
      NoByteNoContains(t, ',');
      SplitWithoutSep(t, [',']);
    }
    TrimSpaceIdempotent(p);
  }

  /** The value list of `raw` read off the pieces its trimmed form is cut into. */
  lemma HeaderValuesVia(raw: Bytes, q: seq<Bytes>, vals: seq<Bytes>)
    requires |q| >= 1
    requires TrimSpace(raw) == Join(q, [',']) && Split(Join(q, [',']), [',']) == q
    requires TrimEach(q) == vals
    ensures HeaderValues(raw) == vals
  {
  }

  /** Trimming a comma-joined list of at least two pieces cuts only the
      white space at its outer ends. */
  lemma TrimCutOuter(pieces: seq<Bytes>, x: Bytes, q: seq<Bytes>, y: Bytes)
    requires |pieces| >= 2 && |q| == |pieces| && AllSpace(x) && AllSpace(y)
    requires pieces[0] == x + q[0] && pieces[|q| - 1] == q[|q| - 1] + y
    requires forall k :: 0 < k < |q| - 1 ==> q[k] == pieces[k]
    requires q[0] == [] || !IsSpace(q[0][0])
    requires q[|q| - 1] == [] || !IsSpace(q[|q| - 1][|q[|q| - 1]| - 1])
    ensures TrimSpace(Join(pieces, [','])) == Join(q, [','])
  {
    var n := |q|;
    assert pieces == [x + q[0]] + q[1..n - 1] + [q[n - 1] + y];
    JoinEnds(q, x, y, [',']);
    TrimPaddedJoin(x, q, y);
  }

  /** Comma-free pieces joined with commas split back into those pieces. */
  lemma SplitCommaJoin(q: seq<Bytes>)
    requires |q| >= 1
    requires forall p <- q :: ',' !in p
    ensures Split(Join(q, [',']), [',']) == q
  {
    forall p <- q
      ensures !Contains(p, [','])
    {
      NoByteNoContains(p, ',');
    }
    JoinThenSplit(q, [',']);
  }

  /** `HeaderValuesOfPieces` for a value with at least one comma. */
  lemma HeaderValuesOfSeveral(pieces: seq<Bytes>)
    requires |pieces| >= 2
    requires forall p <- pieces :: ',' !in p
    ensures HeaderValues(Join(pieces, [','])) == TrimEach(pieces)
  {
    var x, q, y := CutOuterSpace(pieces);
    TrimCutOuter(pieces, x, q, y);
    CutOuterPieces(pieces, x, q, y);
    SplitCommaJoin(q);
    HeaderValuesVia(Join(pieces, [',']), q, TrimEach(pieces));
  }

  /** The value list of a value made of comma-free pieces is those pieces,
      each trimmed: trimming the value as a whole first changes nothing. */
  lemma HeaderValuesOfPieces(pieces: seq<Bytes>)
    requires |pieces| >= 1
    requires forall p <- pieces :: ',' !in p
    ensures HeaderValues(Join(pieces, [','])) == TrimEach(pieces)
  {
    if |pieces| == 1 {
      assert pieces[0] in pieces;
      HeaderValuesOfOne(pieces[0]);
    } else {
      HeaderValuesOfSeveral(pieces);
    }
  }

  /** Each value with its own white space in front of it and behind it. */
  function Padded(vals: seq<Bytes>, before: seq<Bytes>, after: seq<Bytes>): (q: seq<Bytes>)
    requires |before| == |vals| && |after| == |vals|
    ensures |q| == |vals|
  {
    seq(|vals|, i requires 0 <= i < |vals| => before[i] + vals[i] + after[i])
  }

  /** Formatting a value list with commas, with any white space on either
      side of each value, and parsing it back yields the list, for values
      that are trimmed and hold no comma. */
  lemma HeaderValuesRoundTrip(vals: seq<Bytes>, before: seq<Bytes>, after: seq<Bytes>)
    requires |vals| >= 1 && |before| == |vals| && |after| == |vals|
    requires forall i :: 0 <= i < |vals| ==>
      AllSpace(before[i]) && AllSpace(after[i]) && IsTrimmed(vals[i]) && ',' !in vals[i]
    ensures HeaderValues(Join(Padded(vals, before, after), [','])) == vals
  {
    var pieces := Padded(vals, before, after);
    forall i | 0 <= i < |vals|
      ensures ',' !in pieces[i] && TrimSpace(pieces[i]) == vals[i]
    {
      assert ',' !in before[i] && ',' !in after[i];
      TrimSpaceOfPadded(before[i], vals[i], after[i]);
    }
    HeaderValuesOfPieces(pieces);
  }

  /** The name of each line of a header section, in order. */
  function NameSeq(h: seq<Bytes>): seq<Bytes>
    requires AllHaveColon(h)
  {
    seq(|h|, i requires 0 <= i < |h| => HeaderName(h[i]))
  }

  /** The names of the lines of a header section. */
  function Names(h: seq<Bytes>): set<Bytes>
    requires AllHaveColon(h)
  {
    set n | n in NameSeq(h)
  }

  lemma NamesSnoc(h: seq<Bytes>)
    requires AllHaveColon(h) && h != []
    ensures AllHaveColon(h[..|h| - 1])
    ensures Names(h) == Names(h[..|h| - 1]) + {HeaderName(h[|h| - 1])}
  {
    var g := h[..|h| - 1];
    assert forall i :: 0 <= i < |g| ==> g[i] == h[i];
    assert NameSeq(h) == NameSeq(g) + [HeaderName(h[|h| - 1])];
  }

  /** The names in the map are exactly the names of the lines; none holds a colon. */
  lemma {:induction false} HeaderMapKeys(h: seq<Bytes>)
    requires AllHaveColon(h)
    ensures HeaderMapOf(h).Keys == Names(h)
    ensures forall k <- HeaderMapOf(h).Keys :: ':' !in k
    decreases |h|
  {
    if h != [] {
      NamesSnoc(h);
      HeaderMapKeys(h[..|h| - 1]);
    }
  }

  /** A name keeps the values of the LAST line that carries it. */
  lemma {:induction false} HeaderMapLastWins(h: seq<Bytes>, i: int)
    requires AllHaveColon(h) && 0 <= i < |h|
    requires forall j :: i < j < |h| ==> HeaderName(h[j]) != HeaderName(h[i])
    ensures HeaderName(h[i]) in HeaderMapOf(h)
      && HeaderMapOf(h)[HeaderName(h[i])] == HeaderValues(RawValue(h[i]))
    decreases |h|
  {
    if i < |h| - 1 {
      var g := h[..|h| - 1];
      assert forall j :: 0 <= j < |g| ==> g[j] == h[j];
      HeaderMapLastWins(g, i);
    }
  }
}
