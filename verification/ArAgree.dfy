/**
  The two ar readers on the same bytes, signed sizes and names beyond ASCII included: what the
  strict one accepts, the lenient one lists, and under which names.
 */
module ArAgree {
  import opened ArArchive
  import opened ArRoundTrip
  import opened ArText
  import opened Numbers
  import opened Slices
  import opened Wrappers

  // ----- sizes

  lemma {:induction false} LStripMore(s: string)
    requires var t := LStrip(s, ByteSpace); t != "" && !Gone(t[0], CharSpace)
    ensures LStrip(s, CharSpace) == LStrip(s, ByteSpace)
  {
    if s != "" && Gone(s[0], ByteSpace) {
      LStripMore(s[1..]);
    }
  }

  /** A size the strict reader takes is the size the lenient one takes. */
  lemma SizesAgree(field: string)
    requires StrictSize(field).Some?
    ensures LenientSize(field) == StrictSize(field)
  {
    var u := RStrip(field, ByteSpace);
    var t := LStrip(u, ByteSpace);
    IntEnds(t);
    LStripSuffix(u, ByteSpace);
    assert u[|u| - 1] == t[|t| - 1];
    RStripUnique(field, u, CharSpace);
    LStripMore(u);
  }

  /** `lenient` decodes every name and takes every size that `strict` takes, alike. */
  ghost predicate Stricter(strict: Reader, lenient: Reader)
  {
    && (forall field :: strict.size(field).Some? ==> lenient.size(field) == strict.size(field))
    && (forall field :: lenient.text(field).Some?)
  }

  lemma StricterThanLenient()
    ensures Stricter(Strict(), Lenient())
  {
    forall field | StrictSize(field).Some? ensures LenientSize(field) == StrictSize(field) {
      SizesAgree(field);
    }
  }

  // ----- one walk, two readings

  /** The listing from off on, as far as it is one: each member is the one at its offset. */
  ghost predicate Taken(r: Reader, raw: string, off: int, es: seq<Entry>)
    decreases |es|
  {
    es == [] || (Goes(r, raw, off) && es[0] == EntryAt(r, raw, off) && Taken(r, raw, Next(r, raw, off), es[1..]))
  }

  /** The listed members with their names as `r` decodes them. */
  function Reread(r: Reader, raw: string, off: int, es: seq<Entry>): (fs: seq<Entry>)
    ensures |fs| == |es|
    decreases |es|
  {
    if es == [] then []
    else
      var text := r.text(NameField(raw, off));
      [es[0].(name := if text.Some? then text.value else "")] + Reread(r, raw, off + Skip(es[0].size), es[1..])
  }

  /** Every name decodes. */
  ghost predicate AllText(r: Reader, raw: string, off: int, es: seq<Entry>)
    decreases |es|
  {
    es == [] || (r.text(NameField(raw, off)).Some? && AllText(r, raw, off + Skip(es[0].size), es[1..]))
  }

  /** What the strict walk accepts at pos, the lenient reader takes with the same size and payload. */
  lemma BothTake(strict: Reader, lenient: Reader, raw: string, pos: nat)
    requires Stricter(strict, lenient) && SizeAt(strict, raw, pos).Ok?
    ensures var size := SizeAt(strict, raw, pos).value;
            && Goes(lenient, raw, pos) && Next(lenient, raw, pos) == pos + Skip(size)
            && EntryAt(lenient, raw, pos).size == size
            && EntryAt(lenient, raw, pos).payload == raw[pos + 60..pos + 60 + size]
            && NameField(raw, pos) == raw[pos..pos + 16]
  {
    SliceInside(raw, pos, pos + 16);
    SliceInside(raw, pos + 48, pos + 58);
    SliceInside(raw, pos + 60, pos + 60 + SizeAt(strict, raw, pos).value);
  }

  /** Whatever the strict walk accepts, the lenient reader lists to the end. */
  lemma {:induction false} WalkListed(strict: Reader, lenient: Reader, raw: string, pos: nat, data: Data)
      returns (es: seq<Entry>, end: int)
    requires Stricter(strict, lenient) && pos <= |raw| + 1 && Walk(strict, raw, pos, data).Ok?
    ensures Listed(lenient, raw, pos) == (Ok(es), end) && |raw| <= end <= |raw| + 1
    ensures Taken(lenient, raw, pos, es) && AllText(strict, raw, pos, es)
    ensures Collect(strict, Reread(strict, raw, pos, es), data) == Walk(strict, raw, pos, data)
    decreases |raw| - pos
  {
    if pos < |raw| {
      WalkTakes(strict, lenient, raw, pos, data);
      var e := EntryAt(lenient, raw, pos);
      var more := TakenAt(strict, raw, pos, e, data).value;
      var rest;
      rest, end := WalkListed(strict, lenient, raw, pos + Skip(e.size), more);
      es := [e] + rest;
      ListedTakes(lenient, raw, pos, rest, end);
      TakenCons(strict, lenient, raw, pos, rest);
      WalkCollects(strict, raw, pos, es, data);
    } else {
      ListedStep(lenient, raw, pos);
      es, end := [], pos;
    }
  }

  lemma TakenCons(strict: Reader, lenient: Reader, raw: string, pos: int, rest: seq<Entry>)
    requires Goes(lenient, raw, pos) && strict.text(NameField(raw, pos)).Some?
    requires var next := Next(lenient, raw, pos); Taken(lenient, raw, next, rest) && AllText(strict, raw, next, rest)
    ensures var es := [EntryAt(lenient, raw, pos)] + rest;
            es[1..] == rest && Taken(lenient, raw, pos, es) && AllText(strict, raw, pos, es)
  {
    var es := [EntryAt(lenient, raw, pos)] + rest;
    assert es[1..] == rest;
  }

  /** What the strict reader holds after the member at pos. */
  function TakenAt(strict: Reader, raw: string, pos: int, e: Entry, data: Data): Result<Data>
    requires strict.text(NameField(raw, pos)).Some?
  {
    Take(strict.name(strict.text(NameField(raw, pos)).value), e.payload, data)
  }

  lemma WalkTakes(strict: Reader, lenient: Reader, raw: string, pos: nat, data: Data)
    requires Stricter(strict, lenient) && pos < |raw| && Walk(strict, raw, pos, data).Ok?
    ensures Goes(lenient, raw, pos) && strict.text(NameField(raw, pos)).Some?
    ensures var size := EntryAt(lenient, raw, pos).size;
            0 <= size <= |raw| - pos - 60 && Next(lenient, raw, pos) == pos + Skip(size)
    ensures var taken := TakenAt(strict, raw, pos, EntryAt(lenient, raw, pos), data);
            taken.Ok? && Walk(strict, raw, pos, data) == Walk(strict, raw, Next(lenient, raw, pos), taken.value)
  {
    BothTake(strict, lenient, raw, pos);
  }

  lemma ListedTakes(r: Reader, raw: string, off: int, rest: seq<Entry>, end: int)
    requires Goes(r, raw, off) && Listed(r, raw, Next(r, raw, off)) == (Ok(rest), end)
    ensures Listed(r, raw, off) == (Ok([EntryAt(r, raw, off)] + rest), end)
  {
    ListedStep(r, raw, off);
  }

  lemma WalkCollects(strict: Reader, raw: string, pos: nat, es: seq<Entry>, data: Data)
    requires es != [] && strict.text(NameField(raw, pos)).Some? && TakenAt(strict, raw, pos, es[0], data).Ok?
    ensures Collect(strict, Reread(strict, raw, pos, es), data) ==
            Collect(strict, Reread(strict, raw, pos + Skip(es[0].size), es[1..]),
                    TakenAt(strict, raw, pos, es[0], data).value)
  {
    RereadFirst(strict, raw, pos, es);
  }

  lemma RereadFirst(strict: Reader, raw: string, pos: int, es: seq<Entry>)
    requires es != []
    ensures var fs, text := Reread(strict, raw, pos, es), strict.text(NameField(raw, pos));
            && fs[0] == es[0].(name := if text.Some? then text.value else "")
            && fs[1..] == Reread(strict, raw, pos + Skip(es[0].size), es[1..])
  {
  }

  // ----- names

  lemma {:induction false} OneWanted(r: Reader, es: seq<Entry>, payload: string) returns (k: nat)
    requires Wanted(r, es) == [payload]
    ensures k < |es| && es[k].payload == payload
    ensures forall i :: 0 <= i < |es| ==> (r.name(es[i].name) == WANTED <==> i == k)
  {
    var rest := es[1..];
    assert forall i :: 1 <= i < |es| ==> es[i] == rest[i - 1];
    if r.name(es[0].name) == WANTED {
      k := 0;
      assert Wanted(r, es) == [es[0].payload] + Wanted(r, rest);
      assert es[0].payload == Wanted(r, es)[0];
      NoneWanted(r, rest);
    } else {
      assert Wanted(r, es) == [] + Wanted(r, rest) == Wanted(r, rest);
      k := OneWanted(r, rest, payload);
      k := k + 1;
    }
  }

  lemma {:induction false} NoneWanted(r: Reader, es: seq<Entry>)
    requires Wanted(r, es) == []
    ensures forall i :: 0 <= i < |es| ==> r.name(es[i].name) != WANTED
  {
    if es != [] {
      NoneWanted(r, es[1..]);
      assert forall i :: 1 <= i < |es| ==> es[i] == es[1..][i - 1];
    }
  }

  /** A byte that no reader strips is still there afterwards. */
  lemma StripLeaves(s: string, p: nat)
    requires p < |s| && !Gone(s[p], CharSpace) && !Gone(s[p], Slash)
    ensures s[p] in StrictName(LenientName(s))
  {
    var a := RStrip(s, CharSpace);
    var b := RStrip(a, CharSpace);
    var c := LStrip(b, CharSpace);
    LStripSuffix(b, CharSpace);
    assert p < |a| && a[p] == s[p];
    assert p < |b| && b[p] == s[p];
    var q := p - (|b| - |c|);
    assert q >= 0 && c[q] == s[p];
    assert q < |RStrip(c, Slash)| && RStrip(c, Slash)[q] == s[p];
  }

  /** The first byte of an encoded character beyond ASCII is not white space to anyone. */
  lemma {:induction false} LeadByte(s: string) returns (p: nat)
    requires !IsAscii(s)
    ensures p < |Utf8(s)| && Utf8(s)[p] as int >= 0xC0
  {
    var n := |s| - 1;
    if IsAscii(s[..n]) {
      p := |Utf8(s[..n])|;
      assert s[n] as int >= 128 by {
        assert forall i :: 0 <= i < n ==> s[i] == s[..n][i];
      }
    } else {
      p := LeadByte(s[..n]);
    }
  }

  predicate Bytes(s: string)
  {
    forall i :: 0 <= i < |s| ==> s[i] as int < 256
  }

  lemma NameAscii(field: string, text: string)
    requires Decode(field) == Some(text) && IsAscii(text)
    ensures StrictName(LenientName(field)) == StrictName(text)
  {
    Utf8OfDecode(field);
    Utf8Ascii(text);
    RStripTwice(field, CharSpace);
  }

  lemma NameBeyond(field: string, p: nat)
    requires p < |field| && 0xC0 <= field[p] as int < 256
    ensures !IsAscii(StrictName(LenientName(field)))
  {
    StripLeaves(field, p);
    HasWide(StrictName(LenientName(field)), field[p]);
  }

  lemma HasWide(s: string, c: char)
    requires c in s && c as int >= 128
    ensures !IsAscii(s)
  {
  }

  /** The listed name stands for the wanted one exactly when the decoded name does and is ASCII. */
  predicate SameName(strict: Reader, listed: string, text: string)
  {
    strict.name(listed) == WANTED <==> strict.name(text) == WANTED && IsAscii(text)
  }

  /** The lenient reader gives a wanted name as it is exactly when the name is ASCII. */
  lemma NamesAgree(field: string)
    requires Bytes(field) && Decode(field).Some?
    ensures SameName(Strict(), LenientName(field), Decode(field).value)
  {
    var text := Decode(field).value;
    if IsAscii(text) {
      NameAscii(field, text);
    } else {
      Utf8OfDecode(field);
      var p := LeadByte(text);
      NameBeyond(field, p);
      WantedAscii();
    }
  }

  /** So it is for every name field of bytes. */
  ghost predicate NamesAlike(strict: Reader, lenient: Reader)
  {
    forall field :: Bytes(field) && strict.text(field).Some? && lenient.text(field).Some? ==>
      SameName(strict, lenient.name(lenient.text(field).value), strict.text(field).value)
  }

  lemma NamesAlways()
    ensures NamesAlike(Strict(), Lenient())
  {
    forall field | Bytes(field) && Decode(field).Some?
      ensures SameName(Strict(), LenientName(field), Decode(field).value)
    {
      NamesAgree(field);
    }
  }

  lemma WantedAscii()
    ensures IsAscii(WANTED)
  {
  }

  predicate AllSame(strict: Reader, es: seq<Entry>, fs: seq<Entry>)
    requires |es| == |fs|
  {
    es == [] || (SameName(strict, es[0].name, fs[0].name) && AllSame(strict, es[1..], fs[1..]))
  }

  lemma {:induction false} AllSameAt(strict: Reader, es: seq<Entry>, fs: seq<Entry>, i: nat)
    requires |es| == |fs| && AllSame(strict, es, fs) && i < |es|
    ensures SameName(strict, es[i].name, fs[i].name)
  {
    if i > 0 {
      AllSameAt(strict, es[1..], fs[1..], i - 1);
    }
  }

  lemma {:induction false} NamesListed(strict: Reader, lenient: Reader, raw: string, off: int, es: seq<Entry>)
    requires NamesAlike(strict, lenient) && Bytes(raw)
    requires Taken(lenient, raw, off, es) && AllText(strict, raw, off, es)
    ensures AllSame(strict, es, Reread(strict, raw, off, es))
    decreases |es|
  {
    if es != [] {
      assert Bytes(NameField(raw, off));
      RereadFirst(strict, raw, off, es);
      NamesListed(strict, lenient, raw, off + Skip(es[0].size), es[1..]);
    }
  }

  /**
    On any bytes at all: when the strict reader returns a data archive, the lenient one lists
    the whole file. Exactly one member, with those bytes, has the name of the data archive when
    names are decoded, and the lenient reader gives that name exactly when it is ASCII.
   */
  lemma ReadersAgree(raw: string, payload: string) returns (k: nat)
    requires Bytes(raw) && MAGIC <= raw && Outcome(Walk(Strict(), raw, 8, Nothing)) == Ok(payload)
    ensures var (listed, end) := Listed(Lenient(), raw, 8);
            && listed.Ok? && |raw| <= end <= |raw| + 1 && k < |listed.value| && listed.value[k].payload == payload
    ensures var es := Listed(Lenient(), raw, 8).0.value;
            var fs := Reread(Strict(), raw, 8, es);
            && (forall i :: 0 <= i < |es| ==> (StrictName(fs[i].name) == WANTED <==> i == k))
            && forall i :: 0 <= i < |es| ==> (StrictName(es[i].name) == WANTED <==> i == k && IsAscii(fs[k].name))
  {
    StricterThanLenient();
    var es, end := WalkListed(Strict(), Lenient(), raw, 8, Nothing);
    var fs := Reread(Strict(), raw, 8, es);
    CollectPicks(Strict(), fs);
    k := OneWanted(Strict(), fs, payload);
    RereadPayload(Strict(), raw, 8, es, k);
    NamesAlways();
    NamesListed(Strict(), Lenient(), raw, 8, es);
    forall i | 0 <= i < |es| ensures SameName(Strict(), es[i].name, fs[i].name) {
      AllSameAt(Strict(), es, fs, i);
    }
  }

  lemma {:induction false} RereadPayload(r: Reader, raw: string, off: int, es: seq<Entry>, k: nat)
    requires k < |es|
    ensures Reread(r, raw, off, es)[k].payload == es[k].payload
    decreases |es|
  {
    RereadFirst(r, raw, off, es);
    if k > 0 {
      RereadPayload(r, raw, off + Skip(es[0].size), es[1..], k - 1);
    }
  }

  // ----- a name the readers take differently

  /** The wanted name, a no-break space and three spaces: sixteen bytes. */
  const SPACED := Trailed(WANTED)

  function Trailed(name: string): (text: string)
    ensures |text| == |name| + 4
  {
    name + (['\U{a0}'] + Spaces(3))
  }

  /** An archive of one empty member with that name. */
  function Spaced(): string
  {
    MAGIC + (Utf8(SPACED) + (Columns(0) + END))
  }

  lemma TrailedLength(name: string)
    requires IsAscii(name)
    ensures |Utf8(Trailed(name))| == |name| + 5
  {
    Utf8Append(name, ['\U{a0}'] + Spaces(3));
    Utf8Append(['\U{a0}'], Spaces(3));
    Utf8One('\U{a0}');
    Utf8Ascii(name);
    Utf8Ascii(Spaces(3));
  }

  lemma TrailedName(name: string)
    requires Plain(name) && name != ""
    ensures StrictName(Trailed(name)) == name
  {
    var text := Trailed(name);
    assert forall i :: |name| <= i < |text| ==> text[i] == '\U{a0}' || text[i] == ' ';
    RStripUnique(text, name, CharSpace);
    RStripUnique(name, name, Slash);
  }

  lemma SpacedText()
    ensures |Utf8(SPACED)| == 16 && !IsAscii(SPACED) && StrictName(SPACED) == WANTED
  {
    WantedAscii();
    TrailedLength(WANTED);
    TrailedName(WANTED);
    HasWide(SPACED, '\U{a0}');
  }

  lemma SpacedHeader()
    ensures var raw := Spaced();
            && |raw| == 68 && raw[8..24] == Utf8(SPACED) && raw[56..66] == Pad(Dec(0), 10) && raw[66..68] == END
  {
    SpacedText();
    StampLength();
    DecFits(0, 10);
    FourParts(Utf8(SPACED), Stamp(), Pad(Dec(0), 10), END);
    BehindMagic(Utf8(SPACED) + (Columns(0) + END));
  }

  lemma BehindMagic(header: string)
    requires |header| == 60
    ensures var raw := MAGIC + header;
            |raw| == 68 && raw[8..24] == header[..16] && raw[56..66] == header[48..58] && raw[66..68] == header[58..]
  {
  }

  lemma SpacedBytes()
    ensures Bytes(Spaced())
  {
    PlainBytes(0);
    Utf8Bytes(SPACED);
    BytesAppend(Columns(0), END);
    BytesAppend(Utf8(SPACED), Columns(0) + END);
    BytesAppend(MAGIC, Utf8(SPACED) + (Columns(0) + END));
  }

  lemma PlainBytes(size: nat)
    ensures Bytes(Columns(size))
  {
    ColumnsPlain(size);
  }

  lemma BytesAppend(a: string, b: string)
    requires Bytes(a) && Bytes(b)
    ensures Bytes(a + b)
  {
  }

  lemma {:induction false} Utf8Bytes(s: string)
    ensures Bytes(Utf8(s))
  {
    if s != "" {
      Utf8Bytes(s[..|s| - 1]);
    }
  }

  lemma SpacedSize()
    ensures SizeAt(Strict(), Spaced(), 8) == Ok(0)
  {
    SpacedHeader();
    DecodeOfUtf8(SPACED);
    IntOfDec(0);
    StripDec(0, 10, ByteSpace);
  }

  /** The strict reader returns its member as the data archive, the lenient one lists no such name. */
  lemma SpacedName()
    ensures Outcome(Walk(Strict(), Spaced(), 8, Nothing)) == Ok("")
    ensures var listed := Listed(Lenient(), Spaced(), 8).0;
            listed.Ok? && forall i :: 0 <= i < |listed.value| ==> StrictName(listed.value[i].name) != WANTED
  {
    SpacedWalk();
    SpacedHeader();
    SpacedBytes();
    var k := ReadersAgree(Spaced(), "");
    SpacedOnly(k);
  }

  lemma SpacedWalk()
    ensures MAGIC <= Spaced() && Walk(Strict(), Spaced(), 8, Nothing) == Ok(Found(""))
  {
    SpacedHeader();
    SpacedText();
    SpacedSize();
    DecodeOfUtf8(SPACED);
    OneTaken(Strict(), Spaced());
  }

  /** A walk over a single empty member of the wanted name. */
  lemma OneTaken(r: Reader, raw: string)
    requires |raw| == 68 && SizeAt(r, raw, 8) == Ok(0) && r.name(r.text(raw[8..24]).value) == WANTED
    ensures Walk(r, raw, 8, Nothing) == Ok(Found(""))
  {
    assert Walk(r, raw, 68, Found("")) == Ok(Found(""));
    assert raw[68..68] == "";
  }

  /** The wanted member is the first. */
  lemma SpacedOnly(k: nat)
    requires Listed(Lenient(), Spaced(), 8).0.Ok?
    requires var fs := Reread(Strict(), Spaced(), 8, Listed(Lenient(), Spaced(), 8).0.value);
             forall i :: 0 <= i < |fs| ==> (StrictName(fs[i].name) == WANTED <==> i == k)
    requires k < |Listed(Lenient(), Spaced(), 8).0.value|
    ensures !IsAscii(Reread(Strict(), Spaced(), 8, Listed(Lenient(), Spaced(), 8).0.value)[k].name)
  {
    var es := Listed(Lenient(), Spaced(), 8).0.value;
    SpacedHeader();
    SpacedText();
    DecodeOfUtf8(SPACED);
    SliceInside(Spaced(), 8, 24);
    RereadFirst(Strict(), Spaced(), 8, es);
  }
}
