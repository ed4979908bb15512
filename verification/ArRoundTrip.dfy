/**
  What the ar writer and its two readers promise together: written archives are read back
  member by member up to the end of the file, and the readers agree on every archive the
  strict one accepts.
 */
module ArRoundTrip {
  import opened ArArchive
  import opened ArText
  import opened Numbers
  import opened Slices
  import opened Wrappers

  /** A name of at most 16 ASCII characters and a size of at most ten digits. */
  predicate Fits(m: Member)
  {
    |m.name| <= 16 && IsAscii(m.name) && |m.payload| < Pow10(10)
  }

  predicate AllFit(ms: seq<Member>)
  {
    forall k :: 0 <= k < |ms| ==> Fits(ms[k])
  }

  // ----- the writer's header

  lemma {:induction false} ColumnsPlain(size: nat)
    ensures |Columns(size)| == 32 + if |Dec(size)| <= 10 then 10 else |Dec(size)|
    ensures forall i :: 0 <= i < |Columns(size)| ==> Columns(size)[i] == ' ' || IsDigit(Columns(size)[i])
  {
    StampLength();
    DecDigits(size);
    StampPlain();
  }

  lemma StampPlain()
    ensures forall i :: 0 <= i < |Stamp()| ==> Stamp()[i] == ' ' || IsDigit(Stamp()[i])
  {
    DecDigits(EPOCH);
    DecDigits(0);
  }

  lemma HeaderSplit(name: string, size: nat)
    ensures Header(name, size) == Utf8(Pad(name, 16)) + (Columns(size) + END)
  {
    ColumnsPlain(size);
    EncodedBefore(Pad(name, 16), Columns(size), END);
  }

  lemma EncodedBefore(a: string, b: string, end: string)
    requires IsAscii(b)
    ensures Utf8(a + b) + end == Utf8(a) + (b + end)
  {
    Utf8Append(a, b);
    Utf8Ascii(b);
    Associate(Utf8(a), b, end);
  }

  /** A header has at least 60 bytes, and exactly 60 for the members that fit. */
  lemma FitsExactly(m: Member)
    ensures |Header(m.name, |m.payload|)| >= 60
    ensures |Header(m.name, |m.payload|)| == 60 <==> Fits(m)
  {
    var size, text := |m.payload|, Pad(m.name, 16);
    HeaderSplit(m.name, size);
    ColumnsPlain(size);
    DecFits(size, 10);
    Utf8Length(text);
    PadAscii(m.name);
  }

  /** A name that needs more bytes than characters pushes everything behind it back by as many. */
  lemma HeaderShift(name: string, size: nat)
    requires |name| <= 16 && size < Pow10(10)
    ensures |Header(name, size)| == 60 + (|Utf8(name)| - |name|)
  {
    HeaderSplit(name, size);
    ColumnsPlain(size);
    DecFits(size, 10);
    PadBytes(name);
  }

  lemma PadBytes(name: string)
    requires |name| <= 16
    ensures |Utf8(Pad(name, 16))| == |Utf8(name)| + (16 - |name|)
  {
    Utf8Append(name, Spaces(16 - |name|));
    Utf8Ascii(Spaces(16 - |name|));
  }

  /** One accented letter passes the writer's length check and gets a header of 61 bytes. */
  lemma AccentShifts()
    ensures var m := Member("\U{e9}", "");
            !HasLongName([m]) && |Header(m.name, |m.payload|)| == 61 && !Fits(m)
  {
    var name := "\U{e9}";
    assert Utf8(name) == Utf8("") + EncodeChar(name[0]);
    Pow10Ten();
    HeaderShift(name, 0);
  }

  /** Padding adds ASCII only. */
  lemma PadAscii(name: string)
    ensures IsAscii(Pad(name, 16)) <==> IsAscii(name)
    ensures |Pad(name, 16)| == if |name| <= 16 then 16 else |name|
  {
    var t := Pad(name, 16);
    assert forall i :: 0 <= i < |name| ==> t[i] == name[i];
  }

  /** In a longer header the closing bytes are not where the strict reader looks for them. */
  lemma HeaderMisses(m: Member)
    requires |m.name| <= 16 && !Fits(m)
    ensures var header := Header(m.name, |m.payload|); |header| > 60 && header[58..60] != END
  {
    var size, text := |m.payload|, Pad(m.name, 16);
    var header, name := Header(m.name, size), Utf8(text);
    FitsExactly(m);
    HeaderSplit(m.name, size);
    ColumnsPlain(size);
    Utf8Length(text);
    PadAscii(m.name);
    DecFits(size, 10);
    if |name| >= 60 && header[58] == '`' && header[59] == '\n' {
      assert header[58] == name[58] && header[59] == name[59];
      TwoAsciiLate(text);
    } else {
      assert header[58..60][0] == header[58] && header[58..60][1] == header[59];
      if |name| < 60 {
        ColumnsLate(name, Columns(size));
      }
    }
  }

  /** Where the columns reach beyond byte 58, there is a space or a digit at byte 58 or 59. */
  lemma ColumnsLate(name: string, columns: string)
    requires |name| < 60 && |name| + |columns| > 58 && columns != ""
    requires forall i :: 0 <= i < |columns| ==> columns[i] == ' ' || IsDigit(columns[i])
    ensures var header := name + (columns + END); |header| >= 60 && (header[58] != '`' || header[59] != '\n')
  {
    var header := name + (columns + END);
    if |name| <= 58 {
      assert header[58] == columns[58 - |name|];
    } else {
      assert header[59] == columns[0];
    }
  }

  /** Sixteen characters leave no room for two ASCII ones at bytes 58 and 59. */
  lemma TwoAsciiLate(text: string)
    requires |text| == 16 && |Utf8(text)| >= 60
    ensures !(Utf8(text)[58] as int < 128 && Utf8(text)[59] as int < 128)
  {
    if Utf8(text)[58] as int < 128 && Utf8(text)[59] as int < 128 {
      var i := AsciiByte(text, 58);
      var j := AsciiByte(text, 59);
      Utf8Length(text[..i]);
      Utf8Length(text[..j]);
    }
  }

  lemma HeaderColumns(name: string, size: nat)
    requires |name| <= 16 && IsAscii(name) && size < Pow10(10)
    ensures var header := Header(name, size);
            && |header| == 60 && header[..16] == Pad(name, 16)
            && header[48..58] == Pad(Dec(size), 10) && header[58..] == END
  {
    HeaderSplit(name, size);
    PadAscii(name);
    Utf8Ascii(Pad(name, 16));
    StampLength();
    DecFits(size, 10);
    FourParts(Pad(name, 16), Stamp(), Pad(Dec(size), 10), END);
  }

  /** The columns between the name and the size: time, owner, group and mode. */
  const STAMP := "1262304000  " + ("0     " + ("0     " + "100644  "))

  lemma EpochDigits()
    ensures Dec(EPOCH) == "1262304000"
  {
    assert Dec(1) == "1";
    DecMore(1, 2, "1");
    DecMore(12, 6, "12");
    DecMore(126, 2, "126");
    DecMore(1262, 3, "1262");
    DecMore(12623, 0, "12623");
    DecMore(126230, 4, "126230");
    DecMore(1262304, 0, "1262304");
    DecMore(12623040, 0, "12623040");
    DecMore(126230400, 0, "126230400");
  }

  /** One more digit. */
  lemma DecMore(n: nat, d: nat, s: string)
    requires 1 <= n && d < 10 && Dec(n) == s
    ensures Dec(10 * n + d) == s + [('0' as int + d) as char]
  {
  }

  /** A text in at least as many columns as it has characters: the text, then spaces. */
  lemma PadMeans(s: string, w: nat)
    requires |s| <= w
    ensures |Pad(s, w)| == w && Pad(s, w)[..|s|] == s && forall i :: |s| <= i < w ==> Pad(s, w)[i] == ' '
  {
  }

  lemma PadIs(s: string, w: nat, t: string)
    requires |s| <= w == |t| && t[..|s|] == s && forall i :: |s| <= i < w ==> t[i] == ' '
    ensures Pad(s, w) == t
  {
    PadMeans(s, w);
    assert forall i :: 0 <= i < w ==> Pad(s, w)[i] == if i < |s| then Pad(s, w)[..|s|][i] else ' ';
    assert forall i :: 0 <= i < w ==> t[i] == if i < |s| then t[..|s|][i] else ' ';
  }

  lemma StampLiteral()
    ensures Stamp() == STAMP
  {
    EpochDigits();
    PadIs("1262304000", 12, "1262304000  ");
    PadIs("0", 6, "0     ");
    PadIs("100644", 8, "100644  ");
    assert Dec(0) == "0";
  }

  /** The header of a member that fits, column by column. */
  lemma HeaderLiteral(m: Member)
    requires Fits(m)
    ensures Header(m.name, |m.payload|) == Pad(m.name, 16) + ((STAMP + Pad(Dec(|m.payload|), 10)) + "`\n")
  {
    HeaderSplit(m.name, |m.payload|);
    PadAscii(m.name);
    Utf8Ascii(Pad(m.name, 16));
    StampLiteral();
  }

  lemma FourParts(a: string, b: string, c: string, d: string)
    requires |a| == 16 && |b| == 32 && |c| == 10 && |d| == 2
    ensures var all := a + (b + c + d);
            |all| == 60 && all[..16] == a && all[48..58] == c && all[58..] == d
  {
  }

  // ----- written members, as a reader sees them

  /** The reader takes the header of a member as the writer meant it, up to the name. */
  ghost predicate Understands(r: Reader, h: Layout, m: Member)
  {
    var header := h(m.name, |m.payload|);
    && |header| == 60 && header[58..] == END
    && r.size(header[48..58]) == Some(|m.payload|)
    && r.text(header[..16]).Some? && r.name(r.text(header[..16]).value) == r.name(m.name)
  }

  /** What a reader sees of a member at off. */
  ghost predicate Seen(r: Reader, raw: string, off: nat, m: Member)
  {
    && off + Skip(|m.payload|) <= |raw|
    && r.size(raw[off + 48..off + 58]) == Some(|m.payload|)
    && r.text(raw[off..off + 16]).Some? && r.name(r.text(raw[off..off + 16]).value) == r.name(m.name)
    && raw[off + 58..off + 60] == END && raw[off + 60..off + 60 + |m.payload|] == m.payload
  }

  /** The members lie one after the other from off to end. */
  ghost predicate Laid(r: Reader, raw: string, off: nat, ms: seq<Member>, end: nat)
    decreases |ms|
  {
    if ms == [] then off == end
    else Seen(r, raw, off, ms[0]) && Laid(r, raw, off + Skip(|ms[0].payload|), ms[1..], end)
  }

  lemma MemberSeen(r: Reader, h: Layout, raw: string, off: nat, m: Member)
    requires Understands(r, h, m) && Occurs(raw, off, Written(h, m))
    ensures Seen(r, raw, off, m) && |Written(h, m)| == Skip(|m.payload|)
  {
    var size := |m.payload|;
    Split(raw, off, h(m.name, size), m.payload + Padding(size));
    Split(raw, off + 60, m.payload, Padding(size));
    HeaderFields(raw, off);
  }

  lemma JoinedParts(h: Layout, ms: seq<Member>)
    requires ms != []
    ensures Joined(Parts(h, ms)) == Written(h, ms[0]) + Joined(Parts(h, ms[1..]))
  {
    assert Parts(h, ms)[1..] == Parts(h, ms[1..]);
  }

  lemma FirstMember(r: Reader, h: Layout, raw: string, off: nat, ms: seq<Member>)
    requires ms != [] && Understands(r, h, ms[0]) && Occurs(raw, off, Joined(Parts(h, ms)))
    ensures Seen(r, raw, off, ms[0])
    ensures var next := off + Skip(|ms[0].payload|);
            && Occurs(raw, next, Joined(Parts(h, ms[1..])))
            && next + |Joined(Parts(h, ms[1..]))| == off + |Joined(Parts(h, ms))|
  {
    JoinedParts(h, ms);
    Split(raw, off, Written(h, ms[0]), Joined(Parts(h, ms[1..])));
    MemberSeen(r, h, raw, off, ms[0]);
  }

  lemma {:induction false} LaidOut(r: Reader, h: Layout, raw: string, off: nat, ms: seq<Member>)
    requires forall k :: 0 <= k < |ms| ==> Understands(r, h, ms[k])
    requires Occurs(raw, off, Joined(Parts(h, ms)))
    ensures Laid(r, raw, off, ms, off + |Joined(Parts(h, ms))|)
    decreases |ms|
  {
    if ms != [] {
      FirstMember(r, h, raw, off, ms);
      var rest := ms[1..];
      assert forall k :: 0 <= k < |rest| ==> rest[k] == ms[k + 1];
      LaidOut(r, h, raw, off + Skip(|ms[0].payload|), rest);
      LaidCons(r, raw, off, ms, off + |Joined(Parts(h, ms))|);
    }
  }

  lemma LaidCons(r: Reader, raw: string, off: nat, ms: seq<Member>, end: nat)
    requires ms != [] && Seen(r, raw, off, ms[0]) && Laid(r, raw, off + Skip(|ms[0].payload|), ms[1..], end)
    ensures Laid(r, raw, off, ms, end)
  {
  }

  lemma AfterMagic(body: string)
    ensures Occurs(MAGIC + body, 8, body) && 8 + |body| == |MAGIC + body|
  {
  }

  lemma ArchiveLaid(r: Reader, h: Layout, ms: seq<Member>)
    requires forall k :: 0 <= k < |ms| ==> Understands(r, h, ms[k])
    ensures Laid(r, Archive(h, ms), 8, ms, |Archive(h, ms)|)
  {
    AfterMagic(Joined(Parts(h, ms)));
    LaidOut(r, h, Archive(h, ms), 8, ms);
  }

  // ----- the lenient reader

  function EntryOf(r: Reader, m: Member): Entry
  {
    Entry(r.name(m.name), |m.payload|, m.payload)
  }

  function Entries(r: Reader, ms: seq<Member>): seq<Entry>
  {
    seq(|ms|, k requires 0 <= k < |ms| => EntryOf(r, ms[k]))
  }

  /** The members as they were given to the writer. */
  function Given(ms: seq<Member>): seq<Entry>
  {
    seq(|ms|, k requires 0 <= k < |ms| => Entry(ms[k].name, |ms[k].payload|, ms[k].payload))
  }

  /** The listing takes a member that is seen and goes on behind it. */
  lemma SeenListed(r: Reader, raw: string, off: nat, m: Member)
    requires Seen(r, raw, off, m)
    ensures Goes(r, raw, off) && EntryAt(r, raw, off) == EntryOf(r, m) && Next(r, raw, off) == off + Skip(|m.payload|)
  {
    SliceInside(raw, off, off + 16);
    SliceInside(raw, off + 48, off + 58);
    SliceInside(raw, off + 60, off + 60 + |m.payload|);
  }

  lemma {:induction false} ListedLaid(r: Reader, raw: string, off: nat, ms: seq<Member>)
    requires Laid(r, raw, off, ms, |raw|)
    ensures Listed(r, raw, off) == (Ok(Entries(r, ms)), |raw|)
    decreases |ms|
  {
    ListedStep(r, raw, off);
    if ms == [] {
      assert Entries(r, ms) == [];
    } else {
      SeenListed(r, raw, off, ms[0]);
      ListedLaid(r, raw, off + Skip(|ms[0].payload|), ms[1..]);
      assert Entries(r, ms) == [EntryOf(r, ms[0])] + Entries(r, ms[1..]);
    }
  }

  lemma LenientUnderstands(m: Member)
    requires Fits(m)
    ensures Understands(Lenient(), Header, m)
  {
    HeaderColumns(m.name, |m.payload|);
    IntOfDec(|m.payload|);
    StripDec(|m.payload|, 10, CharSpace);
    RStripPad(m.name, 16, CharSpace);
  }

  predicate EndsInSpace(name: string)
  {
    name != "" && Gone(name[|name| - 1], CharSpace)
  }

  /** The bytes that members with headers of 60 columns take. */
  function Span(es: seq<Entry>): int
  {
    if es == [] then 0 else Skip(es[0].size) + Span(es[1..])
  }

  lemma ListedSpan(r: Reader, raw: string, off: int)
    requires Listed(r, raw, off).0.Ok?
    ensures Listed(r, raw, off).1 == off + Span(Listed(r, raw, off).0.value)
  {
    var n :| EndsIn(r, raw, off, n) && Listed(r, raw, off) == ListedIn(r, raw, off, n);
    ListedInSpan(r, raw, off, n);
  }

  lemma {:induction false} ListedInSpan(r: Reader, raw: string, off: int, n: nat)
    requires EndsIn(r, raw, off, n) && ListedIn(r, raw, off, n).0.Ok?
    ensures ListedIn(r, raw, off, n).1 == off + Span(ListedIn(r, raw, off, n).0.value)
    decreases n
  {
    if Goes(r, raw, off) {
      var e := EntryAt(r, raw, off);
      ListedInSpan(r, raw, Next(r, raw, off), n - 1);
      var rest := ListedIn(r, raw, Next(r, raw, off), n - 1).0.value;
      assert ([e] + rest)[1..] == rest;
    }
  }

  lemma {:induction false} EntriesSpan(r: Reader, ms: seq<Member>)
    ensures Span(Entries(r, ms)) == Span(Given(ms))
  {
    if ms != [] {
      assert Entries(r, ms)[1..] == Entries(r, ms[1..]) && Given(ms)[1..] == Given(ms[1..]);
      EntriesSpan(r, ms[1..]);
    }
  }

  /** The members take just that many bytes exactly when all of them fit. */
  lemma {:induction false} WrittenSpan(ms: seq<Member>)
    ensures |Joined(Parts(Header, ms))| >= Span(Given(ms))
    ensures |Joined(Parts(Header, ms))| == Span(Given(ms)) <==> AllFit(ms)
  {
    if ms != [] {
      var written, rest := |Written(Header, ms[0])|, |Joined(Parts(Header, ms[1..]))|;
      JoinedParts(Header, ms);
      WrittenSpan(ms[1..]);
      MemberSpan(ms[0]);
      GivenSpan(ms);
      AllFitCons(ms);
      SpanStep(written, Skip(|ms[0].payload|), rest, Span(Given(ms[1..])), Fits(ms[0]), AllFit(ms[1..]));
    }
  }

  lemma MemberSpan(m: Member)
    ensures |Written(Header, m)| >= Skip(|m.payload|) && (|Written(Header, m)| == Skip(|m.payload|) <==> Fits(m))
  {
    FitsExactly(m);
  }

  lemma SpanStep(written: int, needed: int, rest: int, span: int, fits: bool, all: bool)
    requires written >= needed && (written == needed <==> fits) && rest >= span && (rest == span <==> all)
    ensures written + rest >= needed + span && (written + rest == needed + span <==> fits && all)
  {
  }

  lemma GivenSpan(ms: seq<Member>)
    requires ms != []
    ensures Span(Given(ms)) == Skip(|ms[0].payload|) + Span(Given(ms[1..]))
  {
    assert Given(ms)[1..] == Given(ms[1..]);
  }

  lemma AllFitCons(ms: seq<Member>)
    requires ms != []
    ensures AllFit(ms) <==> Fits(ms[0]) && AllFit(ms[1..])
  {
    assert forall k :: 1 <= k < |ms| ==> ms[k] == ms[1..][k - 1];
  }

  lemma FittingListed(ms: seq<Member>)
    requires AllFit(ms)
    ensures Listed(Lenient(), Archive(Header, ms), 8) == (Ok(Entries(Lenient(), ms)), |Archive(Header, ms)|)
  {
    forall k | 0 <= k < |ms| ensures Understands(Lenient(), Header, ms[k]) {
      LenientUnderstands(ms[k]);
    }
    ArchiveLaid(Lenient(), Header, ms);
    ListedLaid(Lenient(), Archive(Header, ms), 8, ms);
  }

  /** Entries of the right sizes that end with the file leave no room for a longer header. */
  lemma ListedFit(ms: seq<Member>, es: seq<Entry>)
    requires Listed(Lenient(), Archive(Header, ms), 8) == (Ok(es), |Archive(Header, ms)|)
    requires Span(es) == Span(Given(ms))
    ensures AllFit(ms)
  {
    ListedSpan(Lenient(), Archive(Header, ms), 8);
    AfterMagic(Joined(Parts(Header, ms)));
    WrittenSpan(ms);
  }

  /**
    `ar_members` lists every written member, payload and order kept, and stops at the end of
    the file, exactly when all members fit: ASCII names of at most 16 characters, sizes of at
    most ten digits. The names come back exactly when besides none ends in white space.
   */
  lemma LenientReadsBack(ms: seq<Member>)
    ensures Listed(Lenient(), Archive(Header, ms), 8) == (Ok(Entries(Lenient(), ms)), |Archive(Header, ms)|) <==>
            AllFit(ms)
    ensures Listed(Lenient(), Archive(Header, ms), 8) == (Ok(Given(ms)), |Archive(Header, ms)|) <==>
            AllFit(ms) && forall k :: 0 <= k < |ms| ==> !EndsInSpace(ms[k].name)
  {
    var listed := Listed(Lenient(), Archive(Header, ms), 8);
    EntriesSpan(Lenient(), ms);
    if listed == (Ok(Entries(Lenient(), ms)), |Archive(Header, ms)|) {
      ListedFit(ms, Entries(Lenient(), ms));
    }
    if listed == (Ok(Given(ms)), |Archive(Header, ms)|) {
      ListedFit(ms, Given(ms));
    }
    if AllFit(ms) {
      FittingListed(ms);
      GivenKept(ms);
    }
  }

  lemma GivenKept(ms: seq<Member>)
    ensures Entries(Lenient(), ms) == Given(ms) <==> forall k :: 0 <= k < |ms| ==> !EndsInSpace(ms[k].name)
  {
    forall k | 0 <= k < |ms| ensures Entries(Lenient(), ms)[k] == Given(ms)[k] <==> !EndsInSpace(ms[k].name) {
      StripKeeps(ms[k].name);
    }
  }

  lemma StripKeeps(name: string)
    ensures LenientName(name) == name <==> !EndsInSpace(name)
  {
  }

  // ----- the strict reader

  /** The data archive among listed members, as the strict reader picks it. */
  function Collect(r: Reader, es: seq<Entry>, data: Data): Result<Data>
  {
    if es == [] then Ok(data)
    else
      match Take(r.name(es[0].name), es[0].payload, data)
      case Err(e) => Err(e)
      case Ok(more) => Collect(r, es[1..], more)
  }

  /** Walking over members that are seen collects from them and goes on behind them. */
  lemma {:induction false} WalkLaid(r: Reader, raw: string, off: nat, ms: seq<Member>, end: nat, data: Data)
    requires Laid(r, raw, off, ms, end)
    ensures var got := Collect(r, Given(ms), data);
            Walk(r, raw, off, data) == if got.Ok? then Walk(r, raw, end, got.value) else got
    decreases |ms|
  {
    if ms != [] {
      var m := ms[0];
      assert SizeAt(r, raw, off) == Ok(|m.payload|);
      assert Given(ms)[1..] == Given(ms[1..]);
      var taken := Take(r.name(m.name), m.payload, data);
      if taken.Ok? {
        WalkLaid(r, raw, off + Skip(|m.payload|), ms[1..], end, taken.value);
      }
    }
  }

  lemma StrictUnderstands(m: Member)
    requires Fits(m)
    ensures Understands(Strict(), Header, m)
  {
    PadAscii(m.name);
    HeaderColumns(m.name, |m.payload|);
    Utf8Ascii(Pad(m.name, 16));
    DecodeOfUtf8(Pad(m.name, 16));
    IntOfDec(|m.payload|);
    StripDec(|m.payload|, 10, ByteSpace);
    RStripPad(m.name, 16, CharSpace);
  }

  // ----- which member is picked

  /** The payloads of the members with the wanted name, in order. */
  function Wanted(r: Reader, es: seq<Entry>): seq<string>
  {
    if es == [] then []
    else (if r.name(es[0].name) == WANTED then [es[0].payload] else []) + Wanted(r, es[1..])
  }

  function Only(payloads: seq<string>): Result<string>
  {
    if payloads == [] then Err(Missing)
    else if |payloads| == 1 then Ok(payloads[0])
    else Err(Duplicate)
  }

  /** With an archive in hand, no further member may be wanted. */
  lemma {:induction false} CollectAfter(r: Reader, es: seq<Entry>, payload: string)
    ensures Collect(r, es, Found(payload)) == if Wanted(r, es) == [] then Ok(Found(payload)) else Err(Duplicate)
  {
    if es != [] {
      CollectAfter(r, es[1..], payload);
    }
  }

  lemma {:induction false} CollectPicks(r: Reader, es: seq<Entry>)
    ensures Outcome(Collect(r, es, Nothing)) == Only(Wanted(r, es))
    ensures Collect(r, es, Nothing).Err? <==> |Wanted(r, es)| >= 2
  {
    if es != [] {
      CollectAfter(r, es[1..], es[0].payload);
      CollectPicks(r, es[1..]);
    }
  }

  /**
    The strict reader on a written archive whose members fit: the payload of the one member
    whose name it reads as `data.tar.gz`, an error when there is none or there are several.
   */
  lemma StrictReadsBack(ms: seq<Member>)
    requires AllFit(ms)
    ensures Outcome(Walk(Strict(), Archive(Header, ms), 8, Nothing)) == Only(Wanted(Strict(), Given(ms)))
  {
    forall k | 0 <= k < |ms| ensures Understands(Strict(), Header, ms[k]) {
      StrictUnderstands(ms[k]);
    }
    ArchiveLaid(Strict(), Header, ms);
    WalkLaid(Strict(), Archive(Header, ms), 8, ms, |Archive(Header, ms)|, Nothing);
    CollectPicks(Strict(), Given(ms));
  }

  /** A header that is too long is malformed to the strict reader. */
  lemma StrictMisses(raw: string, off: nat, m: Member)
    requires |m.name| <= 16 && !Fits(m) && Occurs(raw, off, Header(m.name, |m.payload|))
    ensures off < |raw| && SizeAt(Strict(), raw, off) == Err(Malformed)
  {
    HeaderMisses(m);
    MissesAt(Strict(), raw, off, Header(m.name, |m.payload|));
  }

  lemma MissesAt(r: Reader, raw: string, off: nat, header: string)
    requires |header| > 60 && header[58..60] != END && Occurs(raw, off, header)
    ensures off < |raw| && SizeAt(r, raw, off) == Err(Malformed)
  {
    Inner(raw, off, off + |header|, 58, 60);
  }

  lemma {:induction false} JoinedBoth(a: seq<string>, b: seq<string>)
    ensures Joined(a + b) == Joined(a) + Joined(b)
  {
    if a == [] {
      assert a + b == b;
    } else {
      assert (a + b)[1..] == a[1..] + b;
      JoinedBoth(a[1..], b);
    }
  }

  /** Where member n begins, and what stands before and from there. */
  lemma MemberBegins(h: Layout, ms: seq<Member>, n: nat)
    requires n < |ms|
    ensures var raw, before := Archive(h, ms), Joined(Parts(h, ms[..n]));
            && Occurs(raw, 8, before) && Occurs(raw, 8 + |before|, h(ms[n].name, |ms[n].payload|))
  {
    var raw, before, after := Archive(h, ms), Joined(Parts(h, ms[..n])), ms[n..];
    assert Parts(h, ms) == Parts(h, ms[..n]) + Parts(h, after);
    JoinedBoth(Parts(h, ms[..n]), Parts(h, after));
    JoinedParts(h, after);
    AfterMagic(Joined(Parts(h, ms)));
    Split(raw, 8, before, Joined(Parts(h, after)));
    Split(raw, 8 + |before|, Written(h, after[0]), Joined(Parts(h, after[1..])));
    var size := |ms[n].payload|;
    Split(raw, 8 + |before|, h(ms[n].name, size), ms[n].payload + Padding(size));
  }

  /** Wherever the header of the member stands, the reader takes it for malformed. */
  ghost predicate Misreads(r: Reader, h: Layout, m: Member)
  {
    forall raw: string, off: nat ::
      Occurs(raw, off, h(m.name, |m.payload|)) ==> off < |raw| && SizeAt(r, raw, off) == Err(Malformed)
  }

  lemma RefusedAt(r: Reader, h: Layout, ms: seq<Member>, n: nat)
    requires n < |ms| && Misreads(r, h, ms[n])
    requires forall k :: 0 <= k < n ==> Understands(r, h, ms[..n][k])
    ensures Outcome(Walk(r, Archive(h, ms), 8, Nothing)) ==
            Err(if |Wanted(r, Given(ms[..n]))| >= 2 then Duplicate else Malformed)
  {
    var raw, before := Archive(h, ms), Joined(Parts(h, ms[..n]));
    MemberBegins(h, ms, n);
    LaidOut(r, h, raw, 8, ms[..n]);
    RefusedBehind(r, raw, ms[..n], 8 + |before|);
  }

  /**
    A written archive whose first member that does not fit is member n: the strict reader
    refuses it as malformed there, unless it has met two data archives before.
   */
  lemma StrictRefuses(ms: seq<Member>, n: nat)
    requires !HasLongName(ms) && n < |ms| && AllFit(ms[..n]) && !Fits(ms[n])
    ensures Outcome(Walk(Strict(), Archive(Header, ms), 8, Nothing)) ==
            Err(if |Wanted(Strict(), Given(ms[..n]))| >= 2 then Duplicate else Malformed)
  {
    forall k | 0 <= k < n ensures Understands(Strict(), Header, ms[..n][k]) {
      StrictUnderstands(ms[..n][k]);
    }
    forall raw: string, off: nat | Occurs(raw, off, Header(ms[n].name, |ms[n].payload|))
      ensures off < |raw| && SizeAt(Strict(), raw, off) == Err(Malformed)
    {
      StrictMisses(raw, off, ms[n]);
    }
    RefusedAt(Strict(), Header, ms, n);
  }

  /** What a walk makes of members that end before a malformed header. */
  lemma RefusedBehind(r: Reader, raw: string, ms: seq<Member>, end: nat)
    requires Laid(r, raw, 8, ms, end) && end < |raw| && SizeAt(r, raw, end) == Err(Malformed)
    ensures Outcome(Walk(r, raw, 8, Nothing)) == Err(if |Wanted(r, Given(ms))| >= 2 then Duplicate else Malformed)
  {
    WalkLaid(r, raw, 8, ms, end, Nothing);
    CollectPicks(r, Given(ms));
  }

  /** A name without white space around it and without a slash at the end. */
  predicate Plain(name: string)
  {
    name != "" ==> !Gone(name[0], CharSpace) && !Gone(name[|name| - 1], CharSpace) && name[|name| - 1] != '/'
  }

  /** The strict reader keeps exactly the plain names. */
  lemma PlainKept(name: string)
    ensures StrictName(name) == name <==> Plain(name)
  {
    var right := RStrip(name, CharSpace);
    var both := LStrip(right, CharSpace);
    LStripSuffix(right, CharSpace);
    if StrictName(name) == name {
      assert |both| == |right| == |name|;
    }
  }

  function Named(es: seq<Entry>): seq<string>
  {
    if es == [] then []
    else (if es[0].name == WANTED then [es[0].payload] else []) + Named(es[1..])
  }

  lemma {:induction false} WantedNamed(es: seq<Entry>)
    requires forall k :: 0 <= k < |es| ==> Plain(es[k].name)
    ensures Wanted(Strict(), es) == Named(es)
  {
    if es != [] {
      PlainKept(es[0].name);
      WantedNamed(es[1..]);
    }
  }

  /** With plain names the data archive is the member of exactly that name. */
  lemma StrictFindsData(ms: seq<Member>)
    requires AllFit(ms) && forall k :: 0 <= k < |ms| ==> Plain(ms[k].name)
    ensures Outcome(Walk(Strict(), Archive(Header, ms), 8, Nothing)) == Only(Named(Given(ms)))
  {
    StrictReadsBack(ms);
    WantedNamed(Given(ms));
  }
}
