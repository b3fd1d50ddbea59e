/** Finding the Host header of an HTTP request in a bounded peek (extractHTTPHost, parseHostHeader). */
module HttpHost {
  import opened Bytes
  import opened Conn

  const READ_BUF_SIZE := 4096
  const MAX_HEADER_BUF := 16384
  const CR: byte := 13
  const LF: byte := 10
  const TERMINATOR: seq<byte> := [13, 10, 13, 10]
  /** CR LF "host: " */
  const NEEDLE: seq<byte> := [13, 10, 104, 111, 115, 116, 58, 32]

  // ---------- Text ----------

  predicate Ascii(s: seq<byte>) {
    forall i :: 0 <= i < |s| ==> s[i] < 0x80
  }

  function LowerByte(b: byte): byte {
    if 65 <= b <= 90 then b + 32 else b
  }

  function AsciiLower(s: seq<byte>): (r: seq<byte>)
    ensures |r| == |s| && forall i :: 0 <= i < |s| ==> r[i] == LowerByte(s[i])
  {
    seq(|s|, i requires 0 <= i < |s| => LowerByte(s[i]))
  }

  predicate Space(b: byte) {
    b == 32 || 9 <= b <= 13
  }

  predicate Blank(s: seq<byte>) {
    forall i :: 0 <= i < |s| ==> Space(s[i])
  }

  /** `r` is `s` from `i` to `j`, and only white space was cut off. */
  predicate CutAt(s: seq<byte>, r: seq<byte>, i: nat, j: nat) {
    i <= j <= |s| && r == s[i..j] && Blank(s[..i]) && Blank(s[j..])
  }

  /** `s` without the white space at its two ends. */
  function AsciiTrim(s: seq<byte>): (r: seq<byte>) {
    if s == [] then []
    else if Space(s[0]) then AsciiTrim(s[1..])
    else if Space(s[|s| - 1]) then AsciiTrim(s[..|s| - 1])
    else s
  }

  /** Trimming cuts off all the white space at the ends, and nothing else. */
  lemma {:induction false} TrimIsCut(s: seq<byte>) returns (i: nat, j: nat)
    ensures CutAt(s, AsciiTrim(s), i, j)
    ensures forall k :: (0 <= k < i || j <= k < |s|) ==> s[k] in {9, 10, 11, 12, 13, 32}
    ensures i < j ==> s[i] !in {9, 10, 11, 12, 13, 32} && s[j - 1] !in {9, 10, 11, 12, 13, 32}
    decreases |s|
  {
    if s == [] {
      i, j := 0, 0;
    } else if Space(s[0]) {
      i, j := TrimIsCut(s[1..]);
      CutFront(s, AsciiTrim(s), i, j);
      assert forall k :: 1 <= k < |s| ==> s[k] == s[1..][k - 1];
      i, j := i + 1, j + 1;
    } else if Space(s[|s| - 1]) {
      i, j := TrimIsCut(s[..|s| - 1]);
      CutBack(s, AsciiTrim(s), i, j);
    } else {
      i, j := 0, |s|;
    }
  }

  lemma CutFront(s: seq<byte>, r: seq<byte>, i: nat, j: nat)
    requires s != [] && Space(s[0]) && CutAt(s[1..], r, i, j)
    ensures CutAt(s, r, i + 1, j + 1)
  {
    assert s[..i + 1] == [s[0]] + s[1..][..i];
  }

  lemma CutBack(s: seq<byte>, r: seq<byte>, i: nat, j: nat)
    requires s != [] && Space(s[|s| - 1]) && CutAt(s[..|s| - 1], r, i, j)
    ensures CutAt(s, r, i, j)
  {
    var t := s[..|s| - 1];
    assert s[j..] == t[j..] + [s[|s| - 1]] && s[..i] == t[..i] && s[i..j] == t[i..j];
  }

  lemma TrimEmptyIff(s: seq<byte>)
    ensures AsciiTrim(s) == [] <==> Blank(s)
  {
    var i, j := TrimIsCut(s);
    assert |AsciiTrim(s)| == j - i;
    if i == j {
      forall k | 0 <= k < |s| ensures Space(s[k]) {
        assert k < i || j <= k;
      }
    } else {
      assert !Space(s[i]);
    }
  }

  /** The library's Unicode-aware lower-casing and trimming. Only their effect on ASCII is fixed. */
  datatype Text = Text(lower: seq<byte> -> seq<byte>, trim: seq<byte> -> seq<byte>) {
    ghost predicate AgreesOnAscii() {
      && (forall s {:trigger lower(s)} :: Ascii(s) ==> lower(s) == AsciiLower(s))
      && (forall s {:trigger trim(s)} :: Ascii(s) ==> trim(s) == AsciiTrim(s))
    }
  }

  // ---------- parseHostHeader ----------

  /** The result of looking for the header; slicing past the data is a run-time fault. */
  datatype HeaderResult = Host(name: seq<byte>) | OutOfRange

  /** `rest` up to its first CR, or its first LF if it has no CR. */
  function FieldValue(rest: seq<byte>): (v: seq<byte>)
    ensures v <= rest
  {
    match Index(rest, [CR])
    case Some(end) => rest[..end]
    case None =>
      match Index(rest, [LF])
      case Some(end) => rest[..end]
      case None => rest
  }

  function ParseHostHeader(t: Text, data: seq<byte>): (r: HeaderResult) {
    match Index(t.lower(data), NEEDLE)
    case None => Host([])
    case Some(idx) =>
      if idx + |NEEDLE| > |data| then OutOfRange
      else Host(t.trim(FieldValue(data[idx + |NEEDLE|..])))
  }

  // ---------- The read loop ----------

  datatype Peeked = Peeked(buf: seq<byte>, err: bool, rest: seq<Arrival>)

  function Peek(buf: seq<byte>, plan: seq<Arrival>): Peeked
    requires Live(plan)
    decreases MAX_HEADER_BUF - |buf|
  {
    if |buf| >= MAX_HEADER_BUF then Peeked(buf, false, plan)
    else
      ReadConserves(plan, READ_BUF_SIZE);
      var r := ReadOnce(plan, READ_BUF_SIZE);
      var more := buf + r.data;
      if r.err then Peeked(more, true, r.rest)
      else if Index(more, TERMINATOR).Some? then Peeked(more, false, r.rest)
      else Peek(more, r.rest)
  }

  datatype Extraction = Extraction(host: seq<byte>, peeked: seq<byte>, err: bool, rest: seq<Arrival>) | Fault

  function Extracted(t: Text, plan: seq<Arrival>, firstByte: byte): Extraction
    requires Live(plan)
  {
    var p := Peek([firstByte], plan);
    match ParseHostHeader(t, p.buf)
    case OutOfRange => Fault
    case Host(h) => Extraction(h, p.buf, p.err && h == [], p.rest)
  }

  method ExtractHTTPHost(t: Text, conn: Connection, firstByte: byte)
    returns (fault: bool, host: seq<byte>, peeked: seq<byte>, err: bool)
    requires Live(conn.plan)
    modifies conn
    ensures Extracted(t, old(conn.plan), firstByte) ==
              if fault then Fault else Extraction(host, peeked, err, conn.plan)
    ensures |peeked| <= 20479
  {
    var buf := [firstByte];
    ghost var goal := Peek(buf, conn.plan);
    err := false;
    var done := false;
    while !done && |buf| < MAX_HEADER_BUF
      invariant Live(conn.plan) && |buf| < MAX_HEADER_BUF + READ_BUF_SIZE
      invariant !done ==> !err && goal == Peek(buf, conn.plan)
      invariant done ==> goal == Peeked(buf, err, conn.plan)
      decreases MAX_HEADER_BUF - |buf|, if done then 0 else 1
    {
      ReadConserves(conn.plan, READ_BUF_SIZE);
      var chunk;
      chunk, err := conn.Read(READ_BUF_SIZE);
      buf := buf + chunk;
      if err {
        done := true;
      } else if Index(buf, TERMINATOR).Some? {
        done := true;
      }
    }
    peeked := buf;
    match ParseHostHeader(t, peeked)
    case OutOfRange =>
      fault, host := true, [];
    case Host(h) =>
      fault, host := false, h;
      if host != [] {
        err := false;
      }
  }

  // ---------- Conservation ----------

  /** Whatever the reads, the peeked bytes followed by the unread ones are the stream, and the peek is bounded. */
  lemma {:induction false} PeekConserves(buf: seq<byte>, plan: seq<Arrival>)
    requires Live(plan)
    ensures var p := Peek(buf, plan);
            && Live(p.rest) && p.buf + Flatten(p.rest) == buf + Flatten(plan)
            && |buf| <= |p.buf| && (|p.buf| <= 20479 || p.buf == buf)
    decreases MAX_HEADER_BUF - |buf|
  {
    if |buf| >= MAX_HEADER_BUF {
    } else {
      ReadConserves(plan, READ_BUF_SIZE);
      var r := ReadOnce(plan, READ_BUF_SIZE);
      assert (buf + r.data) + Flatten(r.rest) == buf + (r.data + Flatten(r.rest));
      if !r.err && Index(buf + r.data, TERMINATOR).None? {
        PeekConserves(buf + r.data, r.rest);
      }
    }
  }

  // ---------- Which buffers a peek can end with ----------

  /** The first end-of-headers mark of `s` is at `end`. */
  predicate HeaderEnd(s: seq<byte>, end: nat) {
    OccursAt(s, TERMINATOR, end) && forall i: nat :: i < end ==> !OccursAt(s, TERMINATOR, i)
  }

  lemma OccursInPrefix(s: seq<byte>, needle: seq<byte>, n: nat, i: nat)
    requires n <= |s|
    ensures OccursAt(s[..n], needle, i) <==> i + |needle| <= n && OccursAt(s, needle, i)
  {
    if i + |needle| <= n {
      assert s[..n][i..i + |needle|] == s[i..i + |needle|];
    }
  }

  /** A buffer of at most one read past a shorter one: it holds the mark exactly when it is long enough. */
  lemma MarkSeen(s: seq<byte>, end: nat, n: nat)
    requires HeaderEnd(s, end) && n <= |s|
    ensures Index(s[..n], TERMINATOR).Some? <==> end + 4 <= n
  {
    OccursInPrefix(s, TERMINATOR, n, end);
    var r := Index(s[..n], TERMINATOR);
    if r.Some? {
      OccursInPrefix(s, TERMINATOR, n, r.value);
    }
  }

  /** If the header block arrives without error and fits, the peek ends just after the read that completes it. */
  lemma {:induction false} PeekEnds(s: seq<byte>, end: nat, buf: seq<byte>, plan: seq<Arrival>)
    requires Live(plan) && s == buf + Flatten(plan) && HeaderEnd(s, end)
    requires |buf| < end + 4 <= 16384 && end + 4 <= |buf| + |Clean(plan)|
    ensures var p := Peek(buf, plan);
            end + 4 <= |p.buf| <= end + 4099 && p.buf <= s
    decreases MAX_HEADER_BUF - |buf|
  {
    ReadConserves(plan, READ_BUF_SIZE);
    var r := ReadOnce(plan, READ_BUF_SIZE);
    var more := buf + r.data;
    assert s == more + Flatten(r.rest) by {
      assert (buf + r.data) + Flatten(r.rest) == buf + (r.data + Flatten(r.rest));
    }
    assert more == s[..|more|];
    MarkSeen(s, end, |more|);
    if !r.err && Index(more, TERMINATOR).None? {
      PeekEnds(s, end, more, r.rest);
    }
  }

  // ---------- The header a peek finds ----------

  lemma LowerOfPrefix(s: seq<byte>, n: nat)
    requires n <= |s|
    ensures AsciiLower(s[..n]) == AsciiLower(s)[..n]
  {
  }

  lemma IndexOfPrefix(hay: seq<byte>, needle: seq<byte>, n: nat)
    requires n <= |hay|
    ensures Index(hay[..n], needle) ==
              match Index(hay, needle)
              case None => None
              case Some(i) => if i + |needle| <= n then Some(i) else None
  {
    var r, p := Index(hay, needle), Index(hay[..n], needle);
    if r.Some? {
      OccursInPrefix(hay, needle, n, r.value);
    }
    if p.Some? {
      OccursInPrefix(hay, needle, n, p.value);
    }
  }

  /** The needle and the end-of-headers mark never overlap when the needle starts first. */
  lemma NeedleClearOfEnd(s: seq<byte>, end: nat, i: nat)
    requires HeaderEnd(s, end) && i < end && OccursAt(AsciiLower(s), NEEDLE, i)
    ensures i + |NEEDLE| <= end
  {
    var low := AsciiLower(s);
    assert CR !in NEEDLE[1..];
    forall j | i < j < i + |NEEDLE| ensures s[j] != CR {
      assert low[j] == low[i..i + |NEEDLE|][j - i] == NEEDLE[1..][j - i - 1];
    }
    assert s[end..end + 4][0] == CR;
  }

  lemma FieldValueOfPrefix(rest: seq<byte>, n: nat)
    requires n <= |rest|
    ensures FieldValue(rest[..n]) <= FieldValue(rest)
    ensures Index(rest, [CR]).Some? && Index(rest, [CR]).value < n ==> FieldValue(rest[..n]) == FieldValue(rest)
  {
    IndexOfPrefix(rest, [CR], n);
    IndexOfPrefix(rest, [LF], n);
  }

  lemma TrimAgrees(t: Text, rest: seq<byte>)
    requires t.AgreesOnAscii() && Ascii(rest)
    ensures t.trim(FieldValue(rest)) == AsciiTrim(FieldValue(rest))
  {
    var v := FieldValue(rest);
    assert Ascii(v);
  }

  /** The host that ASCII data names: the trimmed field value after the first needle. */
  function AsciiHost(data: seq<byte>): seq<byte> {
    match Index(AsciiLower(data), NEEDLE)
    case None => []
    case Some(i) => AsciiTrim(FieldValue(data[i + |NEEDLE|..]))
  }

  /** CR, LF, the letters "host" in either case, a colon and a space stand at `i`. */
  predicate HostMark(s: seq<byte>, i: nat) {
    && i + 8 <= |s| && s[i] == 13 && s[i + 1] == 10
    && (s[i + 2] == 72 || s[i + 2] == 104) && (s[i + 3] == 79 || s[i + 3] == 111)
    && (s[i + 4] == 83 || s[i + 4] == 115) && (s[i + 5] == 84 || s[i + 5] == 116)
    && s[i + 6] == 58 && s[i + 7] == 32
  }

  predicate FirstMark(s: seq<byte>, i: nat) {
    HostMark(s, i) && forall j: nat :: j < i ==> !HostMark(s, j)
  }

  /** Looking for the needle in the lower-cased data is looking for the mark in either case. */
  lemma NeedleIff(s: seq<byte>, i: nat)
    ensures OccursAt(AsciiLower(s), NEEDLE, i) <==> HostMark(s, i)
  {
    if i + 8 <= |s| {
      var w := AsciiLower(s)[i..i + 8];
      assert w[0] == LowerByte(s[i]) && w[1] == LowerByte(s[i + 1]) && w[2] == LowerByte(s[i + 2]);
      assert w[3] == LowerByte(s[i + 3]) && w[4] == LowerByte(s[i + 4]) && w[5] == LowerByte(s[i + 5]);
      assert w[6] == LowerByte(s[i + 6]) && w[7] == LowerByte(s[i + 7]);
      if HostMark(s, i) {
        assert w == NEEDLE;
      }
    }
  }

  lemma MarkIsIndex(s: seq<byte>, i: nat)
    ensures FirstMark(s, i) <==> Index(AsciiLower(s), NEEDLE) == Some(i)
    ensures Index(AsciiLower(s), NEEDLE).None? ==> !HostMark(s, i)
  {
    NeedleIff(s, i);
    var r := Index(AsciiLower(s), NEEDLE);
    if r.Some? {
      NeedleIff(s, r.value);
    }
    forall j: nat | j < i ensures OccursAt(AsciiLower(s), NEEDLE, j) <==> HostMark(s, j) {
      NeedleIff(s, j);
    }
  }

  /** What is read of a field: the text before the first CR (13), or before the first LF (10) if there is no CR, or
      all. */
  lemma FieldValueExactly(rest: seq<byte>)
    ensures var v := FieldValue(rest);
            && v <= rest
            && (if 13 in rest then |v| < |rest| && rest[|v|] == 13 && 13 !in v
                else if 10 in rest then |v| < |rest| && rest[|v|] == 10 && 10 !in v
                else v == rest)
  {
    var v := FieldValue(rest);
    forall k: nat ensures OccursAt(rest, [CR], k) <==> k < |rest| && rest[k] == 13 {
      OneByteOccurs(rest, CR, k);
    }
    forall k: nat ensures OccursAt(rest, [LF], k) <==> k < |rest| && rest[k] == 10 {
      OneByteOccurs(rest, LF, k);
    }
  }

  /** On ASCII data the header search is case-blind, never slices out of range, and gives the trimmed field value
      behind the first mark, or nothing without one. */
  lemma {:induction false} HostOnAscii(t: Text, data: seq<byte>, i: nat)
    requires t.AgreesOnAscii() && Ascii(data)
    ensures FirstMark(data, i) ==> ParseHostHeader(t, data) == Host(AsciiTrim(FieldValue(data[i + 8..])))
    ensures (forall j: nat :: !HostMark(data, j)) ==> ParseHostHeader(t, data) == Host([])
  {
    ParseOnAscii(t, data);
    var r := Index(AsciiLower(data), NEEDLE);
    if FirstMark(data, i) {
      MarkIsIndex(data, i);
    } else if r.Some? {
      MarkIsIndex(data, r.value);
    }
  }

  lemma {:induction false} ParseOnAscii(t: Text, data: seq<byte>)
    requires t.AgreesOnAscii() && Ascii(data)
    ensures ParseHostHeader(t, data) == Host(AsciiHost(data))
  {
    assert t.lower(data) == AsciiLower(data);
    var r := Index(AsciiLower(data), NEEDLE);
    if r.Some? {
      TrimAgrees(t, data[r.value + |NEEDLE|..]);
    }
  }

  /** On any data, with any library: the mark is found in the lower-cased text, but the slice is taken of the data, so
      it is out of range exactly when the first mark of the lower-cased text ends behind the end of the data. */
  lemma SearchExactly(t: Text, data: seq<byte>, i: nat)
    requires OccursAt(t.lower(data), [13, 10, 104, 111, 115, 116, 58, 32], i)
    requires forall j: nat :: j < i ==> !OccursAt(t.lower(data), [13, 10, 104, 111, 115, 116, 58, 32], j)
    ensures i + 8 > |data| ==> ParseHostHeader(t, data) == OutOfRange
    ensures i + 8 <= |data| ==> ParseHostHeader(t, data) == Host(t.trim(FieldValue(data[i + 8..])))
  {
    var r := Index(t.lower(data), NEEDLE);
    assert r == Some(i);
  }

  /** Lower-casing that does not make the data longer keeps the slice in range. */
  lemma InRangeUnlessLonger(t: Text, data: seq<byte>)
    requires |t.lower(data)| <= |data|
    ensures ParseHostHeader(t, data).Host?
  {
    var r := Index(t.lower(data), NEEDLE);
  }

  /** The slice can be out of range: for a header field at the very end of the data, behind text that grows. */
  lemma LongerIsOutOfRange(t: Text, text: seq<byte>, lowered: seq<byte>)
    requires |text| < |lowered| && 13 !in lowered
    requires t.lower(text + NEEDLE) == lowered + NEEDLE
    ensures ParseHostHeader(t, text + NEEDLE) == OutOfRange
  {
    var low := lowered + NEEDLE;
    assert low[|lowered|..|lowered| + 8] == NEEDLE;
    forall j: nat | j < |lowered| ensures !OccursAt(low, NEEDLE, j) {
      assert low[j] in lowered;
      assert j + 8 <= |low| ==> low[j..j + 8][0] == low[j];
    }
    SearchExactly(t, text + NEEDLE, |lowered|);
  }

  lemma ParseOnAsciiPrefix(t: Text, s: seq<byte>, n: nat)
    requires t.AgreesOnAscii() && Ascii(s) && n <= |s|
    ensures ParseHostHeader(t, s[..n]) == Host(AsciiHost(s[..n]))
  {
    ParseOnAscii(t, s[..n]);
  }

  /** A Host header starts before the end of the header block. */
  predicate HostBefore(s: seq<byte>, end: nat) {
    exists i: nat :: i < end && HostMark(s, i)
  }

  lemma HostBeforeIff(s: seq<byte>, end: nat)
    ensures var r := Index(AsciiLower(s), NEEDLE);
            HostBefore(s, end) <==> r.Some? && r.value < end
  {
    var r := Index(AsciiLower(s), NEEDLE);
    if r.Some? {
      MarkIsIndex(s, r.value);
    } else {
      forall i: nat ensures !HostMark(s, i) {
        MarkIsIndex(s, i);
      }
    }
  }

  lemma NeedleOfPrefix(s: seq<byte>, n: nat)
    requires n <= |s|
    ensures Index(AsciiLower(s[..n]), NEEDLE) ==
              match Index(AsciiLower(s), NEEDLE)
              case None => None
              case Some(i) => if i + |NEEDLE| <= n then Some(i) else None
  {
    LowerOfPrefix(s, n);
    IndexOfPrefix(AsciiLower(s), NEEDLE, n);
  }

  /** The text from `start` to `stop` runs up to the first CR. */
  predicate UpToCR(s: seq<byte>, start: nat, stop: nat) {
    start <= stop < |s| && s[stop] == 13 && 13 !in s[start..stop]
  }

  lemma UpToCRUnique(s: seq<byte>, start: nat, a: nat, b: nat)
    requires UpToCR(s, start, a) && UpToCR(s, start, b)
    ensures a == b
  {
    assert forall k :: start <= k < a ==> s[k] in s[start..a];
    assert forall k :: start <= k < b ==> s[k] in s[start..b];
  }

  lemma OneByteOccurs(s: seq<byte>, b: byte, i: nat)
    ensures OccursAt(s, [b], i) <==> i < |s| && s[i] == b
  {
    if i < |s| {
      assert s[i..i + 1] == [s[i]];
    }
  }

  /** The field value of data that has a CR runs up to the first one. */
  lemma FieldValueAtCR(rest: seq<byte>, mark: nat) returns (c: nat)
    requires mark < |rest| && rest[mark] == CR
    ensures c <= mark && UpToCR(rest, 0, c) && FieldValue(rest) == rest[..c]
  {
    OneByteOccurs(rest, CR, mark);
    c := Index(rest, [CR]).value;
    OneByteOccurs(rest, CR, c);
    forall k | 0 <= k < c ensures rest[k] != CR {
      OneByteOccurs(rest, CR, k);
    }
  }

  lemma FieldValueIsUpToCR(s: seq<byte>, start: nat, mark: nat, n: nat) returns (stop: nat)
    requires start <= mark < n <= |s| && s[mark] == CR
    ensures UpToCR(s, start, stop) && stop <= mark && FieldValue(s[..n][start..]) == s[start..stop]
  {
    var rest := s[..n][start..];
    var c := FieldValueAtCR(rest, mark - start);
    stop := start + c;
    assert rest[0..c] == rest[..c] == s[start..stop];
  }

  /** With a Host header in the block, every buffer that holds the block names the same host:
      the trimmed text between the needle and the next CR. */
  lemma HostIndependentOfBuffer(s: seq<byte>, i: nat, end: nat, n: nat) returns (stop: nat)
    requires HeaderEnd(s, end) && FirstMark(s, i) && i < end && end + 4 <= n <= |s|
    ensures UpToCR(s, i + 8, stop) && stop <= end && AsciiHost(s[..n]) == AsciiTrim(s[i + 8..stop])
  {
    MarkIsIndex(s, i);
    NeedleClearOfEnd(s, end, i);
    NeedleOfPrefix(s, n);
    assert s[end..end + 4][0] == CR;
    stop := FieldValueIsUpToCR(s, i + |NEEDLE|, end, n);
  }

  /** A longer buffer that names no host means that every shorter one names none. */
  lemma EmptyInheritedByPrefix(long: seq<byte>, n: nat)
    requires n <= |long| && AsciiHost(long) == []
    ensures AsciiHost(long[..n]) == []
  {
    NeedleOfPrefix(long, n);
    var r := Index(AsciiLower(long[..n]), NEEDLE);
    if r.Some? {
      var start := r.value + |NEEDLE|;
      assert long[..n][start..] == long[start..][..n - start];
      FieldValueOfPrefix(long[start..], n - start);
      TrimEmptyIff(FieldValue(long[start..]));
      TrimEmptyIff(FieldValue(long[start..][..n - start]));
    }
  }

  // ---------- Chunking independence, exactly ----------

  /** The reads cut `s` in some way and bring its header block before any error. */
  ghost predicate Delivers(s: seq<byte>, end: nat, plan: seq<Arrival>) {
    Live(plan) && s != [] && s[1..] == Flatten(plan) && end + 4 <= 1 + |Clean(plan)|
  }

  ghost function HostVia(t: Text, s: seq<byte>, plan: seq<Arrival>): HeaderResult
    requires s != [] && Live(plan)
  {
    ParseHostHeader(t, Peek(s[..1], plan).buf)
  }

  /** The longest buffer that a peek of `s` can end with. */
  function LongestPeek(s: seq<byte>, end: nat): nat {
    if |s| < end + 4099 then |s| else end + 4099
  }

  /** One byte at a time up to `m`, then the bytes up to `n` in one read, then the rest. */
  function DripThenGulp(s: seq<byte>, k: nat, m: nat, n: nat): seq<Arrival>
    requires k <= m < n <= |s|
    decreases m - k
  {
    if k < m then [Arrival([s[k]], false)] + DripThenGulp(s, k + 1, m, n)
    else if n < |s| then [Arrival(s[m..n], false), Arrival(s[n..], false)]
    else [Arrival(s[m..n], false)]
  }

  lemma {:induction false} DripFlattens(s: seq<byte>, k: nat, m: nat, n: nat)
    requires k <= m < n <= |s|
    ensures var plan := DripThenGulp(s, k, m, n);
            Live(plan) && Flatten(plan) == s[k..] && Clean(plan) == s[k..]
    decreases m - k
  {
    var plan := DripThenGulp(s, k, m, n);
    if k < m {
      DripFlattens(s, k + 1, m, n);
      assert plan[1..] == DripThenGulp(s, k + 1, m, n);
      assert s[k..] == [s[k]] + s[k + 1..];
    } else if n < |s| {
      assert s[m..] == s[m..n] + s[n..];
      assert plan[1..] == [Arrival(s[n..], false)] && plan[1..][1..] == [];
      assert Flatten(plan[1..]) == s[n..] && Clean(plan[1..]) == s[n..];
    } else {
      assert plan[1..] == [] && s[m..] == s[m..n];
    }
  }

  lemma {:induction false} DripPeeks(s: seq<byte>, end: nat, k: nat, n: nat)
    requires HeaderEnd(s, end) && end + 4 <= 16384 && k <= end + 3
    requires end + 4 <= n <= LongestPeek(s, end)
    ensures Live(DripThenGulp(s, k, end + 3, n))
    ensures Peek(s[..k], DripThenGulp(s, k, end + 3, n)).buf == s[..n]
    decreases end + 3 - k
  {
    var plan := DripThenGulp(s, k, end + 3, n);
    DripFlattens(s, k, end + 3, n);
    var r := ReadOnce(plan, READ_BUF_SIZE);
    if k < end + 3 {
      assert s[..k] + r.data == s[..k + 1];
      assert r.rest == DripThenGulp(s, k + 1, end + 3, n);
      MarkSeen(s, end, k + 1);
      DripPeeks(s, end, k + 1, n);
    } else {
      assert s[..k] + r.data == s[..n];
      MarkSeen(s, end, n);
    }
  }

  /** Every buffer length from the end of the block to the longest peek is reached by some cut of the reads. */
  lemma EveryLengthReached(s: seq<byte>, end: nat, n: nat) returns (plan: seq<Arrival>)
    requires HeaderEnd(s, end) && end + 4 <= 16384 && end + 4 <= n <= LongestPeek(s, end)
    ensures Delivers(s, end, plan) && Peek(s[..1], plan).buf == s[..n]
  {
    plan := DripThenGulp(s, 1, end + 3, n);
    DripFlattens(s, 1, end + 3, n);
    DripPeeks(s, end, 1, n);
  }

  lemma DeliveredPeek(s: seq<byte>, end: nat, plan: seq<Arrival>)
    requires HeaderEnd(s, end) && end + 4 <= 16384 && Delivers(s, end, plan)
    ensures var n := |Peek(s[..1], plan).buf|;
            end + 4 <= n <= LongestPeek(s, end) && Peek(s[..1], plan).buf == s[..n]
  {
    assert s == s[..1] + Flatten(plan);
    PeekEnds(s, end, s[..1], plan);
  }

  /** With a Host header in the block, all cuts of the reads find the same host:
      the trimmed text between the needle and the next CR. */
  lemma {:induction false} ChunkingIndependent(t: Text, s: seq<byte>, end: nat, plan: seq<Arrival>, i: nat, stop: nat)
    requires t.AgreesOnAscii() && Ascii(s) && HeaderEnd(s, end) && end + 4 <= 16384 && Delivers(s, end, plan)
    requires FirstMark(s, i) && i < end && UpToCR(s, i + 8, stop)
    ensures HostVia(t, s, plan) == Host(AsciiTrim(s[i + 8..stop]))
  {
    DeliveredPeek(s, end, plan);
    var n := |Peek(s[..1], plan).buf|;
    ParseOnAsciiPrefix(t, s, n);
    var found := HostIndependentOfBuffer(s, i, end, n);
    UpToCRUnique(s, i + 8, found, stop);
  }

  /** For a block that fits the buffer, the host is the same for all cuts of the reads if and only if
      the block has a Host header or the longest possible peek names no host either. */
  lemma {:induction false} ChunkingIndependentIff(t: Text, s: seq<byte>, end: nat)
    requires t.AgreesOnAscii() && Ascii(s) && HeaderEnd(s, end) && end + 4 <= 16384
    ensures (forall p, q :: Delivers(s, end, p) && Delivers(s, end, q) ==> HostVia(t, s, p) == HostVia(t, s, q))
       <==> HostBefore(s, end) || AsciiHost(s[..LongestPeek(s, end)]) == []
  {
    var m := LongestPeek(s, end);
    if HostBefore(s, end) {
      HostBeforeIff(s, end);
      var i := Index(AsciiLower(s), NEEDLE).value;
      MarkIsIndex(s, i);
      var stop := HostIndependentOfBuffer(s, i, end, |s|);
      forall p | Delivers(s, end, p) ensures HostVia(t, s, p) == Host(AsciiTrim(s[i + 8..stop])) {
        ChunkingIndependent(t, s, end, p, i, stop);
      }
    } else if AsciiHost(s[..m]) == [] {
      forall p | Delivers(s, end, p) ensures HostVia(t, s, p) == Host([]) {
        DeliveredPeek(s, end, p);
        var n := |Peek(s[..1], p).buf|;
        ParseOnAsciiPrefix(t, s, n);
        EmptyInheritedByPrefix(s[..m], n);
        assert s[..m][..n] == s[..n];
      }
    } else {
      ChunkingMatters(t, s, end);
    }
  }

  /** Otherwise two cuts of the same stream disagree: one that stops at the end of the block finds no
      host, and one that reads on finds the host of a needle behind the block. */
  lemma {:induction false} ChunkingMatters(t: Text, s: seq<byte>, end: nat)
    requires t.AgreesOnAscii() && Ascii(s) && HeaderEnd(s, end) && end + 4 <= 16384
    requires !HostBefore(s, end) && AsciiHost(s[..LongestPeek(s, end)]) != []
    ensures exists p, q :: Delivers(s, end, p) && Delivers(s, end, q) && HostVia(t, s, p) == Host([])
                           && HostVia(t, s, q) == Host(AsciiHost(s[..LongestPeek(s, end)]))
  {
    var p := HostAtLength(t, s, end, end + 4);
    var q := HostAtLength(t, s, end, LongestPeek(s, end));
    NoHostInBlock(s, end);
    assert HostVia(t, s, p) == Host([]);
  }

  /** A stream on which the cut decides: "g", the end of the headers, then "host: a" behind it. */
  const LATE_HOST: seq<byte> := [103, 13, 10, 13, 10, 104, 111, 115, 116, 58, 32, 97]

  lemma LateNeedle()
    ensures Index(AsciiLower(LATE_HOST), NEEDLE) == Some(3)
  {
    var low := AsciiLower(LATE_HOST);
    assert low == LATE_HOST;
    assert low[3..11] == NEEDLE;
    assert low[0..8][0] == 103 && low[1..9][2] == 13 && low[2..10][0] == 10;
  }

  lemma LateHostFacts()
    ensures Ascii(LATE_HOST) && HeaderEnd(LATE_HOST, 1) && !HostBefore(LATE_HOST, 1) && AsciiHost(LATE_HOST) == [97]
  {
    LateNeedle();
    HostBeforeIff(LATE_HOST, 1);
    assert LATE_HOST[1..5] == TERMINATOR && LATE_HOST[0..4][0] == 103;
    assert LATE_HOST[11..] == [97];
    OneByteOccurs([97], CR, 0);
    OneByteOccurs([97], LF, 0);
    assert Index([97], [CR]).None? && Index([97], [LF]).None?;
  }

  /** One cut of that stream finds no host and another finds "a". */
  lemma CutDecides(t: Text)
    requires t.AgreesOnAscii()
    ensures exists p, q :: Delivers(LATE_HOST, 1, p) && Delivers(LATE_HOST, 1, q)
                           && HostVia(t, LATE_HOST, p) == Host([]) && HostVia(t, LATE_HOST, q) == Host([97])
  {
    LateHostFacts();
    assert LATE_HOST[..LongestPeek(LATE_HOST, 1)] == LATE_HOST;
    ChunkingMatters(t, LATE_HOST, 1);
  }

  lemma HostAtLength(t: Text, s: seq<byte>, end: nat, n: nat) returns (plan: seq<Arrival>)
    requires t.AgreesOnAscii() && Ascii(s) && HeaderEnd(s, end) && end + 4 <= 16384
    requires end + 4 <= n <= LongestPeek(s, end)
    ensures Delivers(s, end, plan) && HostVia(t, s, plan) == Host(AsciiHost(s[..n]))
  {
    plan := EveryLengthReached(s, end, n);
    ParseOnAsciiPrefix(t, s, n);
  }

  lemma NoHostInBlock(s: seq<byte>, end: nat)
    requires HeaderEnd(s, end) && !HostBefore(s, end)
    ensures AsciiHost(s[..end + 4]) == []
  {
    HostBeforeIff(s, end);
    NeedleOfPrefix(s, end + 4);
  }
}
