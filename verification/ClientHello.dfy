/** The server-name search of the pass-through proxy (parseSNI) and the TLS encoding it reads. */
module ClientHello {
  import opened Bytes

  const HELLO_MIN_LEN := 35
  const RANDOM_END := 34
  const EXT_HDR_LEN := 4
  const EXT_SNI := 0
  const SNI_EXT_MIN_LEN := 5
  const SNI_NAME_LEN_OFFSET := 3
  const SNI_NAME_OFFSET := 5

  // ---------- The encoding: section 4.1.2 of RFC 8446 and section 3 of RFC 6066 ----------

  datatype Extension = Extension(kind: uint16, data: seq<byte>) {
    predicate Fits() { |data| < 0x1_0000 }
  }

  /** The part of a ClientHello before its extension block. */
  datatype Header = Header(version: seq<byte>, random: seq<byte>, session: seq<byte>,
                           ciphers: seq<byte>, compression: seq<byte>) {
    predicate Fits() {
      |version| == 2 && |random| == 32 && |session| < 0x100 && |ciphers| < 0x1_0000 && |compression| < 0x100
    }
  }

  datatype ServerName = ServerName(nameType: byte, name: seq<byte>) {
    predicate Fits() { |name| < 0x1_0000 }
  }

  function EncodeHeader(h: Header): (b: seq<byte>)
    requires h.Fits()
  {
    h.version + h.random + [|h.session|] + h.session + Len16(|h.ciphers|) + h.ciphers
    + [|h.compression|] + h.compression
  }

  function EncodeExtension(x: Extension): (b: seq<byte>)
    requires x.Fits()
    ensures |b| == EXT_HDR_LEN + |x.data|
  {
    Len16(x.kind) + Len16(|x.data|) + x.data
  }

  predicate AllFit(xs: seq<Extension>) {
    forall x :: x in xs ==> x.Fits()
  }

  function EncodeExtensions(xs: seq<Extension>): seq<byte>
    requires AllFit(xs)
  {
    if xs == [] then [] else EncodeExtension(xs[0]) + EncodeExtensions(xs[1..])
  }

  function EncodeNames(names: seq<ServerName>): seq<byte>
    requires forall n :: n in names ==> n.Fits()
  {
    if names == [] then []
    else
      assert names[0].Fits();
      [names[0].nameType] + Len16(|names[0].name|) + names[0].name + EncodeNames(names[1..])
  }

  /** The extension data of a server_name extension that lists `names`. */
  function EncodeNameList(names: seq<ServerName>): seq<byte>
    requires forall n :: n in names ==> n.Fits()
    requires |EncodeNames(names)| < 0x1_0000
  {
    Len16(|EncodeNames(names)|) + EncodeNames(names)
  }

  // ---------- What the search is for, stated on parsed extensions ----------

  /** A server_name extension whose first entry lies inside the extension data. */
  predicate NamesHost(x: Extension) {
    && x.kind == EXT_SNI
    && |x.data| >= SNI_EXT_MIN_LEN
    && SNI_NAME_OFFSET + Be16(x.data, SNI_NAME_LEN_OFFSET) <= |x.data|
  }

  function HostIn(x: Extension): seq<byte>
    requires NamesHost(x)
  {
    x.data[SNI_NAME_OFFSET..SNI_NAME_OFFSET + Be16(x.data, SNI_NAME_LEN_OFFSET)]
  }

  /** The name in the first well-formed server_name extension, or the empty name. */
  function SelectedName(xs: seq<Extension>): seq<byte> {
    if xs == [] then []
    else if NamesHost(xs[0]) then HostIn(xs[0])
    else SelectedName(xs[1..])
  }

  // ---------- Specification of the search on bytes ----------

  /** What follows a vector with a one-byte length prefix, if `s` holds all of that vector. */
  function Skip8(s: seq<byte>): (r: Option<seq<byte>>) {
    if |s| < 1 || 1 + s[0] > |s| then None else Some(s[1 + s[0]..])
  }

  /** What follows a vector with a two-byte length prefix, if `s` holds all of that vector. */
  function Skip16(s: seq<byte>): (r: Option<seq<byte>>) {
    if |s| < 2 || 2 + Be16(s, 0) > |s| then None else Some(s[2 + Be16(s, 0)..])
  }

  /** The body of a vector with a two-byte length prefix, cut to what `s` holds of it. */
  function Clamped16(s: seq<byte>): (r: Option<seq<byte>>) {
    if |s| < 2 then None
    else Some(s[2..if 2 + Be16(s, 0) > |s| then |s| else 2 + Be16(s, 0)])
  }

  function ExtensionBytes(hello: seq<byte>): Option<seq<byte>> {
    if |hello| < HELLO_MIN_LEN then None
    else match Skip8(hello[RANDOM_END..])
      case None => None
      case Some(afterSession) =>
        match Skip16(afterSession)
        case None => None
        case Some(afterCiphers) =>
          match Skip8(afterCiphers)
          case None => None
          case Some(block) => Clamped16(block)
  }

  /** The extension at the front of `exts`, if all of it is there. */
  function FirstExtension(exts: seq<byte>): (r: Option<Extension>)
    ensures r.Some? ==> r.value.Fits() && EXT_HDR_LEN + |r.value.data| <= |exts|
  {
    if |exts| < EXT_HDR_LEN || EXT_HDR_LEN + Be16(exts, 2) > |exts| then None
    else Some(Extension(Be16(exts, 0), exts[EXT_HDR_LEN..EXT_HDR_LEN + Be16(exts, 2)]))
  }

  function ScanExtensions(exts: seq<byte>): (name: seq<byte>)
    decreases |exts|
  {
    match FirstExtension(exts)
    case None => []
    case Some(x) => if NamesHost(x) then HostIn(x) else ScanExtensions(exts[EXT_HDR_LEN + |x.data|..])
  }

  function SniOf(hello: seq<byte>): (name: seq<byte>) {
    match ExtensionBytes(hello)
    case None => []
    case Some(exts) => ScanExtensions(exts)
  }

  // ---------- The cursor loop ----------

  method ParseSNI(hello: seq<byte>) returns (host: seq<byte>)
    ensures host == SniOf(hello)
  {
    if |hello| < HELLO_MIN_LEN {
      return [];
    }
    var pos := RANDOM_END;
    if pos + 1 > |hello| {
      assert false;
      return [];
    }
    var sessLen := hello[pos];
    pos := pos + 1 + sessLen;
    if pos + 2 > |hello| {
      return [];
    }
    assert Skip8(hello[RANDOM_END..]) == Some(hello[pos..]);
    var cipherLen := Be16(hello, pos);
    ghost var afterSession := pos;
    pos := pos + 2 + cipherLen;
    if pos + 1 > |hello| {
      return [];
    }
    assert Skip16(hello[afterSession..]) == Some(hello[pos..]);
    var compLen := hello[pos];
    ghost var afterCiphers := pos;
    pos := pos + 1 + compLen;
    if pos + 2 > |hello| {
      return [];
    }
    assert Skip8(hello[afterCiphers..]) == Some(hello[pos..]);
    var extTotal := Be16(hello, pos);
    ghost var block := pos;
    pos := pos + 2;
    var end := pos + extTotal;
    if end > |hello| {
      end := |hello|;
    }
    assert hello[block..][2..end - block] == hello[pos..end];
    assert Clamped16(hello[block..]) == Some(hello[pos..end]);
    ScanFromIsScan(hello, pos, end);
    host := ScanLoop(hello, pos, end);
  }

  /** The first extension of a window of `hello`, read through indices of `hello`. */
  lemma FirstInWindow(hello: seq<byte>, pos: nat, end: nat)
    requires pos + EXT_HDR_LEN <= end <= |hello|
    ensures var n := Be16(hello, pos + 2);
            FirstExtension(hello[pos..end]) ==
              if pos + EXT_HDR_LEN + n > end then None
              else Some(Extension(Be16(hello, pos), hello[pos + EXT_HDR_LEN..pos + EXT_HDR_LEN + n]))
  {
    var exts, n := hello[pos..end], Be16(hello, pos + 2);
    assert Be16(exts, 0) == Be16(hello, pos) && Be16(exts, 2) == n;
    if pos + EXT_HDR_LEN + n <= end {
      assert exts[EXT_HDR_LEN..EXT_HDR_LEN + n] == hello[pos + EXT_HDR_LEN..pos + EXT_HDR_LEN + n];
    }
  }

  lemma ScanNext(exts: seq<byte>, x: Extension, rest: seq<byte>)
    requires FirstExtension(exts) == Some(x) && rest == exts[EXT_HDR_LEN + |x.data|..]
    ensures ScanExtensions(exts) == if NamesHost(x) then HostIn(x) else ScanExtensions(rest)
  {
  }

  /** One turn of the loop: what the search of a window is worth after its first extension `x`. */
  lemma ScanStep(hello: seq<byte>, pos: nat, end: nat, x: Extension)
    requires pos + EXT_HDR_LEN + |x.data| <= end <= |hello|
    requires x.kind == Be16(hello, pos) && |x.data| == Be16(hello, pos + 2)
    requires x.data == hello[pos + EXT_HDR_LEN..pos + EXT_HDR_LEN + |x.data|]
    ensures ScanExtensions(hello[pos..end]) ==
              if NamesHost(x) then HostIn(x) else ScanExtensions(hello[pos + EXT_HDR_LEN + |x.data|..end])
  {
    FirstInWindow(hello, pos, end);
    var next := EXT_HDR_LEN + |x.data|;
    assert hello[pos..end][next..] == hello[pos + next..end];
    ScanNext(hello[pos..end], x, hello[pos + next..end]);
  }

  lemma ScanStops(hello: seq<byte>, pos: nat, end: nat)
    requires pos <= end <= |hello|
    requires pos + EXT_HDR_LEN <= end ==> pos + EXT_HDR_LEN + Be16(hello, pos + 2) > end
    ensures ScanExtensions(hello[pos..end]) == []
  {
    if pos + EXT_HDR_LEN <= end {
      FirstInWindow(hello, pos, end);
    }
  }

  /** Reads the first entry of a server_name extension. */
  method ReadName(extType: uint16, ext: seq<byte>) returns (name: Option<seq<byte>>)
    ensures var x := Extension(extType, ext);
            name == if NamesHost(x) then Some(HostIn(x)) else None
  {
    if extType == EXT_SNI && |ext| >= SNI_EXT_MIN_LEN {
      var nameLen := Be16(ext, SNI_NAME_LEN_OFFSET);
      if SNI_NAME_OFFSET + nameLen <= |ext| {
        return Some(ext[SNI_NAME_OFFSET..SNI_NAME_OFFSET + nameLen]);
      }
    }
    return None;
  }

  /** The search of the window by positions, as the loop makes it. */
  function ScanFrom(hello: seq<byte>, pos: nat, end: nat): seq<byte>
    requires pos <= end <= |hello|
    decreases end - pos
  {
    if pos + EXT_HDR_LEN > end then []
    else
      var data := pos + EXT_HDR_LEN;
      var next := data + Be16(hello, pos + 2);
      if next > end then []
      else
        var x := Extension(Be16(hello, pos), hello[data..next]);
        if NamesHost(x) then HostIn(x) else ScanFrom(hello, next, end)
  }

  lemma {:induction false} ScanFromIsScan(hello: seq<byte>, pos: nat, end: nat)
    requires pos <= end <= |hello|
    ensures ScanFrom(hello, pos, end) == ScanExtensions(hello[pos..end])
    decreases end - pos
  {
    var data := pos + EXT_HDR_LEN;
    if data > end || data + Be16(hello, pos + 2) > end {
      ScanStops(hello, pos, end);
    } else {
      var next := data + Be16(hello, pos + 2);
      ScanStep(hello, pos, end, Extension(Be16(hello, pos), hello[data..next]));
      ScanFromIsScan(hello, next, end);
    }
  }

  /** The loop over the extensions in `hello[start..end]`. */
  method ScanLoop(hello: seq<byte>, start: nat, end: nat) returns (host: seq<byte>)
    requires start <= end <= |hello|
    ensures host == ScanFrom(hello, start, end)
  {
    var pos := start;
    while pos + EXT_HDR_LEN <= end
      invariant start <= pos <= end
      invariant ScanFrom(hello, pos, end) == ScanFrom(hello, start, end)
      decreases end - pos
    {
      var extType := Be16(hello, pos);
      var extLen := Be16(hello, pos + 2);
      pos := pos + EXT_HDR_LEN;
      if pos + extLen > end {
        return [];
      }
      var name := ReadName(extType, hello[pos..pos + extLen]);
      if name.Some? {
        return name.value;
      }
      pos := pos + extLen;
    }
    return [];
  }

  // ---------- Round trip ----------

  lemma Skip8Encoded(v: seq<byte>, rest: seq<byte>)
    requires |v| < 0x100
    ensures Skip8([|v|] + v + rest) == Some(rest)
  {
  }

  lemma Skip16Encoded(v: seq<byte>, rest: seq<byte>)
    requires |v| < 0x1_0000
    ensures Skip16(Len16(|v|) + v + rest) == Some(rest)
  {
    var s := Len16(|v|) + v + rest;
    assert s[0] == Len16(|v|)[0] && s[1] == Len16(|v|)[1];
    assert s[2 + |v|..] == rest;
  }

  lemma HeaderSkipped(h: Header, block: seq<byte>)
    requires h.Fits() && |block| >= 2
    ensures ExtensionBytes(EncodeHeader(h) + block) == Clamped16(block)
  {
    var hello := EncodeHeader(h) + block;
    var afterCiphers := [|h.compression|] + h.compression + block;
    var afterSession := Len16(|h.ciphers|) + h.ciphers + afterCiphers;
    assert hello[RANDOM_END..] == [|h.session|] + h.session + afterSession;
    Skip8Encoded(h.session, afterSession);
    Skip16Encoded(h.ciphers, afterCiphers);
    Skip8Encoded(h.compression, block);
  }

  lemma FirstEncoded(x: Extension, rest: seq<byte>)
    requires x.Fits()
    ensures FirstExtension(EncodeExtension(x) + rest) == Some(x)
    ensures (EncodeExtension(x) + rest)[EXT_HDR_LEN + |x.data|..] == rest
  {
    var s := EncodeExtension(x) + rest;
    assert s[0..2] == Len16(x.kind) && s[2..4] == Len16(|x.data|);
    assert Be16(s, 0) == x.kind && Be16(s, 2) == |x.data|;
    assert s[4..4 + |x.data|] == x.data;
  }

  /** Extensions in front that name no host are passed over. */
  lemma {:induction false} ScanPasses(before: seq<Extension>, rest: seq<byte>)
    requires AllFit(before) && forall x :: x in before ==> !NamesHost(x)
    ensures ScanExtensions(EncodeExtensions(before) + rest) == ScanExtensions(rest)
  {
    if before == [] {
      assert EncodeExtensions(before) + rest == rest;
    } else {
      var tail := EncodeExtensions(before[1..]) + rest;
      assert EncodeExtensions(before) + rest == EncodeExtension(before[0]) + tail;
      FirstEncoded(before[0], tail);
      ScanPasses(before[1..], rest);
    }
  }

  lemma {:induction false} ScanEncoded(xs: seq<Extension>)
    requires AllFit(xs)
    ensures ScanExtensions(EncodeExtensions(xs)) == SelectedName(xs)
  {
    if xs == [] {
    } else {
      FirstEncoded(xs[0], EncodeExtensions(xs[1..]));
      ScanEncoded(xs[1..]);
    }
  }

  /** Parsing an encoded ClientHello, whatever follows it, gives the selected name. */
  lemma {:induction false} RoundTrip(h: Header, xs: seq<Extension>, trailing: seq<byte>)
    requires h.Fits() && AllFit(xs) && |EncodeExtensions(xs)| < 0x1_0000
    ensures SniOf(EncodeHeader(h) + Len16(|EncodeExtensions(xs)|) + EncodeExtensions(xs) + trailing)
         == SelectedName(xs)
  {
    var body := EncodeExtensions(xs);
    var block := Len16(|body|) + body + trailing;
    assert EncodeHeader(h) + Len16(|body|) + body + trailing == EncodeHeader(h) + block;
    HeaderSkipped(h, block);
    assert block[0..2] == Len16(|body|);
    assert Be16(block, 0) == |body|;
    assert block[2..2 + |body|] == body;
    ScanEncoded(xs);
  }

  /** Reading the first entry of a name list, given its bytes. */
  lemma EntryFields(len: seq<byte>, nameType: byte, name: seq<byte>, more: seq<byte>)
    requires |len| == 2 && |name| < 0x1_0000
    ensures var data := len + ([nameType] + Len16(|name|) + name + more);
            && 5 + |name| <= |data| && Be16(data, 3) == |name| && data[5..5 + |name|] == name
  {
    var data := len + ([nameType] + Len16(|name|) + name + more);
    assert data[3] == Len16(|name|)[0] && data[4] == Len16(|name|)[1];
  }

  /** A well-formed server_name extension yields the name of its first entry. */
  lemma FirstEntryNamed(names: seq<ServerName>)
    requires names != [] && forall n :: n in names ==> n.Fits()
    requires |EncodeNames(names)| < 0x1_0000
    ensures NamesHost(Extension(EXT_SNI, EncodeNameList(names)))
    ensures HostIn(Extension(EXT_SNI, EncodeNameList(names))) == names[0].name
  {
    assert names[0].Fits();
    EntryFields(Len16(|EncodeNames(names)|), names[0].nameType, names[0].name, EncodeNames(names[1..]));
  }

  lemma {:induction false} SelectedSkips(before: seq<Extension>, x: Extension, after: seq<Extension>)
    requires NamesHost(x) && forall y :: y in before ==> !NamesHost(y)
    ensures SelectedName(before + [x] + after) == HostIn(x)
  {
    var xs := before + [x] + after;
    if before == [] {
    } else {
      assert xs[0] == before[0];
      assert xs[1..] == before[1..] + [x] + after;
      SelectedSkips(before[1..], x, after);
    }
  }

  /** The host a client puts in its server_name extension is the host the proxy finds. */
  lemma {:induction false} ServerNameFound(h: Header, before: seq<Extension>, names: seq<ServerName>,
                        after: seq<Extension>, trailing: seq<byte>, hello: seq<byte>)
    requires h.Fits() && AllFit(before) && AllFit(after)
    requires forall x :: x in before ==> !NamesHost(x)
    requires names != [] && (forall n :: n in names ==> n.Fits()) && |EncodeNames(names)| < 0xFFFE
    requires var xs := before + [Extension(EXT_SNI, EncodeNameList(names))] + after;
             AllFit(xs) && |EncodeExtensions(xs)| < 0x1_0000
             && hello == EncodeHeader(h) + Len16(|EncodeExtensions(xs)|) + EncodeExtensions(xs) + trailing
    ensures SniOf(hello) == names[0].name
  {
    var sni := Extension(EXT_SNI, EncodeNameList(names));
    RoundTrip(h, before + [sni] + after, trailing);
    FirstEntryNamed(names);
    SelectedSkips(before, sni, after);
  }

  /** An extension of another type than 0 never names a host. */
  lemma OtherKindNamesNone(x: Extension)
    requires x.kind != 0
    ensures !NamesHost(x)
  {
  }

  /** An extension of type 0 names the host of its first entry exactly when that entry lies inside the data, whatever
      the list length and the type of the entry say. */
  lemma EntryNamedIff(x: Extension)
    requires x.kind == 0
    ensures |x.data| < 5 ==> !NamesHost(x)
    ensures |x.data| >= 5 ==>
              var n := 256 * (x.data[3] as int) + x.data[4];
              (NamesHost(x) <==> 5 + n <= |x.data|) && (NamesHost(x) ==> HostIn(x) == x.data[5..5 + n])
  {
  }

  lemma {:induction false} SelectedNone(xs: seq<Extension>)
    requires forall x :: x in xs ==> !NamesHost(x)
    ensures SelectedName(xs) == []
  {
    if xs == [] {
    } else {
      SelectedNone(xs[1..]);
    }
  }

  /** By the number of the type: extensions of other types than 0 in front do not matter. */
  lemma {:induction false} ServerNameBehindOthers(h: Header, before: seq<Extension>, names: seq<ServerName>,
                                                  after: seq<Extension>, trailing: seq<byte>, hello: seq<byte>)
    requires h.Fits() && AllFit(before) && AllFit(after)
    requires forall x :: x in before ==> x.kind != 0
    requires names != [] && (forall n :: n in names ==> n.Fits()) && |EncodeNames(names)| < 0xFFFE
    requires var xs := before + [Extension(0, EncodeNameList(names))] + after;
             AllFit(xs) && |EncodeExtensions(xs)| < 0x1_0000
             && hello == EncodeHeader(h) + Len16(|EncodeExtensions(xs)|) + EncodeExtensions(xs) + trailing
    ensures SniOf(hello) == names[0].name
  {
    forall x | x in before ensures !NamesHost(x) {
      OtherKindNamesNone(x);
    }
    ServerNameFound(h, before, names, after, trailing, hello);
  }

  /** A hello with no extension of type 0 yields no host. */
  lemma {:induction false} NoServerName(h: Header, xs: seq<Extension>, trailing: seq<byte>)
    requires h.Fits() && AllFit(xs) && |EncodeExtensions(xs)| < 0x1_0000 && forall x :: x in xs ==> x.kind != 0
    ensures SniOf(EncodeHeader(h) + Len16(|EncodeExtensions(xs)|) + EncodeExtensions(xs) + trailing) == []
  {
    forall x | x in xs ensures !NamesHost(x) {
      OtherKindNamesNone(x);
    }
    RoundTrip(h, xs, trailing);
    SelectedNone(xs);
  }

  const STATUS_REQUEST := Extension(5, [1, 0, 0, 0, 0])
  const NAME_A := Extension(0, [0, 4, 0, 0, 1, 97])

  lemma WrittenOutHeader(start: seq<byte>)
    requires |start| == 34
    ensures EncodeHeader(Header(start[..2], start[2..], [], [19, 1], [0])) == start + [0, 0, 2, 19, 1, 1, 0]
  {
  }

  lemma {:induction false} WrittenOutExtensions()
    ensures EncodeExtensions([STATUS_REQUEST, NAME_A])
         == [0, 5, 0, 5, 1, 0, 0, 0, 0] + [0, 0, 0, 6, 0, 4, 0, 0, 1, 97]
  {
    assert [STATUS_REQUEST, NAME_A][1..] == [NAME_A];
    assert EncodeExtensions([NAME_A]) == EncodeExtension(NAME_A);
  }

  lemma {:induction false} WrittenOutName()
    ensures SelectedName([STATUS_REQUEST, NAME_A]) == [97]
  {
    assert [STATUS_REQUEST, NAME_A][1..] == [NAME_A];
    EntryNamedIff(NAME_A);
  }

  /** A message written out: any version and random, no session, one cipher suite, the null compression, a
      status_request extension and the server name "a". */
  lemma {:induction false} WrittenOutHello(start: seq<byte>)
    requires |start| == 34
    ensures SniOf(start + [0, 0, 2, 19, 1, 1, 0] + [0, 19]
                  + ([0, 5, 0, 5, 1, 0, 0, 0, 0] + [0, 0, 0, 6, 0, 4, 0, 0, 1, 97])) == [97]
  {
    var h, xs := Header(start[..2], start[2..], [], [19, 1], [0]), [STATUS_REQUEST, NAME_A];
    WrittenOutHeader(start);
    WrittenOutExtensions();
    WrittenOutName();
    var hello := EncodeHeader(h) + Len16(19) + EncodeExtensions(xs);
    assert Len16(19) == [0, 19] && hello + [] == hello;
    RoundTrip(h, xs, []);
  }

  // ---------- Exact characterisation of a non-empty result ----------

  /** `hello` is a header, extensions that name no host, a complete extension `x` that names one
      inside the declared block length, and anything after that. */
  predicate Locates(hello: seq<byte>, h: Header, total: uint16, before: seq<Extension>, x: Extension, rest: seq<byte>) {
    && h.Fits() && AllFit(before) && x.Fits()
    && (forall y :: y in before ==> !NamesHost(y)) && NamesHost(x)
    && |EncodeExtensions(before)| + |EncodeExtension(x)| <= total
    && hello == EncodeHeader(h) + Len16(total) + EncodeExtensions(before) + EncodeExtension(x) + rest
  }

  /** The clamped body of a block that starts with all of `front`. */
  lemma ClampedKeepsFront(total: uint16, front: seq<byte>, rest: seq<byte>) returns (tail: seq<byte>)
    requires |front| <= total
    ensures Clamped16(Len16(total) + (front + rest)) == Some(front + tail)
  {
    var block := Len16(total) + (front + rest);
    assert Be16(block, 0) == total;
    var stop := if 2 + total > |block| then |block| else 2 + total;
    tail := block[2 + |front|..stop];
    assert block[2..stop] == front + tail;
  }

  lemma Regroup(h: seq<byte>, l: seq<byte>, b: seq<byte>, x: seq<byte>, r: seq<byte>)
    ensures h + l + b + x + r == h + (l + ((b + x) + r))
    ensures (b + x) + r == b + (x + r)
  {
  }

  lemma {:induction false} LocatedIsFound(hello: seq<byte>, h: Header, total: uint16, before: seq<Extension>,
                                          x: Extension, rest: seq<byte>)
    requires Locates(hello, h, total, before, x, rest)
    ensures SniOf(hello) == HostIn(x)
  {
    var front := EncodeExtensions(before) + EncodeExtension(x);
    Regroup(EncodeHeader(h), Len16(total), EncodeExtensions(before), EncodeExtension(x), rest);
    HeaderSkipped(h, Len16(total) + (front + rest));
    var tail := ClampedKeepsFront(total, front, rest);
    Regroup([], [], EncodeExtensions(before), EncodeExtension(x), tail);
    ScanPasses(before, EncodeExtension(x) + tail);
    FirstEncoded(x, tail);
  }

  lemma Len16Front(s: seq<byte>)
    requires |s| >= 2
    ensures s == Len16(Be16(s, 0)) + s[2..]
  {
    assert Len16(Be16(s, 0)) == [s[0], s[1]];
  }

  lemma FirstFound(exts: seq<byte>, x: Extension)
    requires FirstExtension(exts) == Some(x)
    ensures exts == EncodeExtension(x) + exts[EXT_HDR_LEN + |x.data|..]
  {
    var tail := exts[2..];
    var rest := exts[EXT_HDR_LEN + |x.data|..];
    Len16Front(exts);
    Len16Front(tail);
    assert Be16(tail, 0) == |x.data|;
    assert tail[2..] == x.data + rest;
    Regroup([], Len16(x.kind), Len16(|x.data|), x.data, rest);
  }

  lemma {:induction false} ScanFound(exts: seq<byte>) returns (before: seq<Extension>, x: Extension, rest: seq<byte>)
    requires ScanExtensions(exts) != []
    ensures AllFit(before) && x.Fits() && (forall y :: y in before ==> !NamesHost(y)) && NamesHost(x)
    ensures HostIn(x) == ScanExtensions(exts)
    ensures exts == EncodeExtensions(before) + (EncodeExtension(x) + rest)
    decreases |exts|
  {
    var first := FirstExtension(exts).value;
    var tail := exts[EXT_HDR_LEN + |first.data|..];
    FirstFound(exts, first);
    if NamesHost(first) {
      before, x, rest := [], first, tail;
    } else {
      var more;
      more, x, rest := ScanFound(tail);
      before := [first] + more;
      ConsEncoded(first, more, EncodeExtension(x) + rest);
    }
  }

  lemma ConsEncoded(first: Extension, more: seq<Extension>, rest: seq<byte>)
    requires first.Fits() && AllFit(more)
    ensures AllFit([first] + more)
    ensures EncodeExtension(first) + (EncodeExtensions(more) + rest) == EncodeExtensions([first] + more) + rest
  {
    assert ([first] + more)[1..] == more;
  }

  lemma Take8(s: seq<byte>) returns (v: seq<byte>, rest: seq<byte>)
    requires Skip8(s).Some?
    ensures Skip8(s) == Some(rest) && |v| < 0x100 && s == [|v|] + v + rest
  {
    v, rest := s[1..1 + s[0]], Skip8(s).value;
  }

  lemma Take16(s: seq<byte>) returns (v: seq<byte>, rest: seq<byte>)
    requires Skip16(s).Some?
    ensures Skip16(s) == Some(rest) && |v| < 0x1_0000 && s == Len16(|v|) + v + rest
  {
    v, rest := s[2..2 + Be16(s, 0)], Skip16(s).value;
    Len16Front(s);
  }

  lemma HeaderFound(hello: seq<byte>) returns (h: Header, block: seq<byte>)
    requires ExtensionBytes(hello).Some?
    ensures h.Fits() && |block| >= 2 && hello == EncodeHeader(h) + block
  {
    var s := hello[RANDOM_END..];
    var session, afterSession := Take8(s);
    var ciphers, afterCiphers := Take16(afterSession);
    var compression;
    compression, block := Take8(afterCiphers);
    h := Header(hello[..2], hello[2..RANDOM_END], session, ciphers, compression);
    assert hello == h.version + h.random + s;
    HeaderJoined(h, afterSession, afterCiphers, block);
  }

  lemma HeaderJoined(h: Header, afterSession: seq<byte>, afterCiphers: seq<byte>, block: seq<byte>)
    requires h.Fits()
    requires afterSession == Len16(|h.ciphers|) + h.ciphers + afterCiphers
    requires afterCiphers == [|h.compression|] + h.compression + block
    ensures h.version + h.random + ([|h.session|] + h.session + afterSession) == EncodeHeader(h) + block
  {
  }

  /** A non-empty answer always comes from a located extension: nothing is invented. */
  lemma {:induction false} FoundIsLocated(hello: seq<byte>)
    requires SniOf(hello) != []
    ensures exists h, total, before, x, rest ::
              Locates(hello, h, total, before, x, rest) && HostIn(x) == SniOf(hello)
  {
    var h, block := HeaderFound(hello);
    HeaderSkipped(h, block);
    var total, exts, end := ClampedFound(block);
    var before, x, rest := ScanFound(exts);
    LocatesJoined(h, total, before, x, rest, end);
    assert Locates(hello, h, total, before, x, rest + end);
  }

  lemma ClampedFound(block: seq<byte>) returns (total: uint16, exts: seq<byte>, end: seq<byte>)
    requires |block| >= 2
    ensures Clamped16(block) == Some(exts) && |exts| <= total
    ensures block == Len16(total) + (exts + end)
  {
    total, exts := Be16(block, 0), Clamped16(block).value;
    end := block[2 + |exts|..];
    Len16Front(block);
    assert block[2..] == exts + end;
  }

  lemma LocatesJoined(h: Header, total: uint16, before: seq<Extension>, x: Extension, rest: seq<byte>, end: seq<byte>)
    requires h.Fits() && AllFit(before) && x.Fits()
    ensures EncodeHeader(h) + (Len16(total) + ((EncodeExtensions(before) + (EncodeExtension(x) + rest)) + end))
         == EncodeHeader(h) + Len16(total) + EncodeExtensions(before) + EncodeExtension(x) + (rest + end)
  {
  }

  // ---------- Prefix stability ----------

  lemma SliceOfPrefix(p: seq<byte>, s: seq<byte>, i: nat, j: nat, k: nat)
    requires p <= s && i <= j <= |p| && j <= k <= |s|
    ensures p[i..j] <= s[i..k]
  {
  }

  lemma SkipsOfPrefix(p: seq<byte>, s: seq<byte>)
    requires p <= s
    ensures Skip8(p).Some? ==> Skip8(s).Some? && Skip8(p).value <= Skip8(s).value
    ensures Skip16(p).Some? ==> Skip16(s).Some? && Skip16(p).value <= Skip16(s).value
  {
    if Skip8(p).Some? {
      SliceOfPrefix(p, s, 1 + p[0] as int, |p|, |s|);
    }
    if Skip16(p).Some? {
      assert Be16(p, 0) == Be16(s, 0);
      SliceOfPrefix(p, s, 2 + Be16(p, 0), |p|, |s|);
    }
  }

  lemma ClampOfPrefix(p: seq<byte>, s: seq<byte>)
    requires p <= s
    ensures Clamped16(p).Some? ==> Clamped16(s).Some? && Clamped16(p).value <= Clamped16(s).value
  {
    if |p| >= 2 {
      assert Be16(p, 0) == Be16(s, 0);
      var n := 2 + Be16(p, 0);
      SliceOfPrefix(p, s, 2, if n > |p| then |p| else n, if n > |s| then |s| else n);
    }
  }

  lemma {:induction false} ScanOfPrefix(p: seq<byte>, s: seq<byte>)
    requires p <= s
    ensures ScanExtensions(p) == [] || ScanExtensions(p) == ScanExtensions(s)
    decreases |p|
  {
    match FirstExtension(p)
    case None =>
    case Some(x) =>
      assert Be16(p, 0) == Be16(s, 0) && Be16(p, 2) == Be16(s, 2);
      assert s[EXT_HDR_LEN..EXT_HDR_LEN + |x.data|] == x.data;
      assert FirstExtension(s) == Some(x);
      if !NamesHost(x) {
        var n := EXT_HDR_LEN + |x.data|;
        assert p[n..] <= s[n..];
        ScanOfPrefix(p[n..], s[n..]);
      }
  }

  /** Cutting a ClientHello short never turns its host into a different one. */
  lemma {:induction false} PrefixStable(p: seq<byte>, hello: seq<byte>)
    requires p <= hello
    ensures SniOf(p) == [] || SniOf(p) == SniOf(hello)
  {
    if ExtensionBytes(p).Some? {
      SkipsOfPrefix(p[RANDOM_END..], hello[RANDOM_END..]);
      var p1, s1 := Skip8(p[RANDOM_END..]).value, Skip8(hello[RANDOM_END..]).value;
      SkipsOfPrefix(p1, s1);
      var p2, s2 := Skip16(p1).value, Skip16(s1).value;
      SkipsOfPrefix(p2, s2);
      var p3, s3 := Skip8(p2).value, Skip8(s2).value;
      ClampOfPrefix(p3, s3);
      ScanOfPrefix(Clamped16(p3).value, Clamped16(s3).value);
    }
  }
}
