/**
  The ar container of the package: its writer (ci/mkipk.py, `write_ar`) and the two readers
  that walk it, a lenient one (ci/gen-release-audit.py, `ar_members`) and a strict one
  (ci/check-packaged-elf.py, the walk in `check`). Byte strings are strings of characters
  below 256.
 */
module ArArchive {
  import opened ArText
  import opened Numbers
  import opened Slices
  import opened Wrappers

  const MAGIC := "!<arch>\n"
  const END := "`\n"
  const EPOCH: nat := 1262304000
  const WANTED := "data.tar.gz"

  /** A member as the writer is given it; the name is text, the payload bytes. */
  datatype Member = Member(name: string, payload: string)

  /** A member as the lenient reader lists it; the size is what the header says, with its sign. */
  datatype Entry = Entry(name: string, size: int, payload: string)

  /** Why there is no result; `Unending` stands for a loop that never returns. */
  datatype Error = NotAr | Malformed | BadSize | NotText | Truncated | Duplicate | Missing | LongName | Unending
  datatype Result<T> = Ok(value: T) | Err(error: Error)

  // ----- the writer

  function Stamp(): (s: string)
  {
    Pad(Dec(EPOCH), 12) + (Pad(Dec(0), 6) + (Pad(Dec(0), 6) + Pad("100644", 8)))
  }

  lemma StampLength()
    ensures |Stamp()| == 32
  {
    DecFits(EPOCH, 12);
    DecFits(0, 6);
    assert Pow10(6) == 10 * (10 * Pow10(4)) && Pow10(4) == 10 * (10 * Pow10(2)) && Pow10(2) == 100;
    assert Pow10(12) == 10 * (10 * Pow10(10)) && Pow10(10) == 10 * (10 * Pow10(8)) && Pow10(8) == 10 * (10 * Pow10(6));
  }

  /** The columns after the name, without the two closing bytes. */
  function Columns(size: nat): string
  {
    Stamp() + Pad(Dec(size), 10)
  }

  /** A header is padded as text, then encoded. */
  function Header(name: string, size: nat): string
  {
    Utf8(Pad(name, 16) + Columns(size)) + END
  }

  /** How a writer lays out the header of a name and a size. */
  type Layout = (string, nat) -> string

  function Padding(size: nat): string
  {
    if size % 2 == 1 then "\n" else ""
  }

  function Written(h: Layout, m: Member): string
  {
    h(m.name, |m.payload|) + (m.payload + Padding(|m.payload|))
  }

  function Joined(parts: seq<string>): string
  {
    if parts == [] then "" else parts[0] + Joined(parts[1..])
  }

  lemma {:induction false} JoinedAppend(parts: seq<string>, last: string)
    ensures Joined(parts + [last]) == Joined(parts) + last
  {
    if parts == [] {
      assert [last][1..] == [];
      assert last + Joined([]) == last == Joined([]) + last;
    } else {
      JoinedAppend(parts[1..], last);
      assert (parts + [last])[1..] == parts[1..] + [last];
      assert parts[0] + (Joined(parts[1..]) + last) == (parts[0] + Joined(parts[1..])) + last;
    }
  }

  function Parts(h: Layout, ms: seq<Member>): seq<string>
  {
    seq(|ms|, k requires 0 <= k < |ms| => Written(h, ms[k]))
  }

  function Archive(h: Layout, ms: seq<Member>): string
  {
    MAGIC + Joined(Parts(h, ms))
  }

  predicate HasLongName(ms: seq<Member>)
  {
    exists k :: 0 <= k < |ms| && |ms[k].name| > 16
  }

  /** `write_ar` for a header layout; the bytes are what the file then holds. */
  method WriteMembers(h: Layout, members: seq<Member>) returns (r: Result<string>)
    ensures r == if HasLongName(members) then Err(Error.LongName) else Ok(Archive(h, members))
  {
    var out := MAGIC;
    for k := 0 to |members|
      invariant out == Archive(h, members[..k])
      invariant forall j :: 0 <= j < k ==> |members[j].name| <= 16
    {
      var m := members[k];
      if |m.name| > 16 {
        return Err(Error.LongName);
      }
      NextMember(h, members, k);
      out := out + h(m.name, |m.payload|);
      out := out + m.payload;
      if |m.payload| % 2 == 1 {
        out := out + "\n";
      } else {
        assert out + "" == out;
      }
    }
    assert members[..|members|] == members;
    return Ok(out);
  }

  /** `write_ar`. */
  method WriteAr(members: seq<Member>) returns (r: Result<string>)
    ensures r == if HasLongName(members) then Err(Error.LongName) else Ok(Archive(Header, members))
  {
    r := WriteMembers(Header, members);
  }

  lemma NextMember(h: Layout, ms: seq<Member>, k: nat)
    requires k < |ms|
    ensures var size := |ms[k].payload|;
            Archive(h, ms[..k + 1]) == Archive(h, ms[..k]) + h(ms[k].name, size) + ms[k].payload + Padding(size)
  {
    var before := Parts(h, ms[..k]);
    JoinedAppend(before, Written(h, ms[k]));
    assert Parts(h, ms[..k + 1]) == before + [Written(h, ms[k])];
    var size := |ms[k].payload|;
    AppendAll(MAGIC, Joined(before), h(ms[k].name, size), ms[k].payload, Padding(size));
  }

  lemma AppendAll(a: string, b: string, c: string, d: string, e: string)
    ensures a + (b + (c + (d + e))) == a + b + c + d + e
  {
  }

  // ----- the readers

  /** How a reader takes a header: its size field, the text of its name field, the name in a text. */
  datatype Reader = Reader(size: string -> Option<int>, text: string -> Option<string>, name: string -> string)

  /** Where an index of Python points; negative ones count from the end. */
  function Index(s: string, i: int): (k: nat)
    ensures k <= |s|
  {
    if i >= 0 then Min(i, |s|) else Max(|s| + i, 0)
  }

  /** A slice as Python takes it. */
  function Slice(s: string, from: int, to: int): string
  {
    if Index(s, from) < Index(s, to) then s[Index(s, from)..Index(s, to)] else ""
  }

  lemma SliceInside(s: string, from: nat, to: nat)
    requires from <= to <= |s|
    ensures Slice(s, from, to) == s[from..to]
  {
  }

  /** From one header to the next. */
  function Skip(size: int): int
  {
    60 + size + size % 2
  }

  // ----- the lenient reader

  /** A size field; blank means zero. */
  function LenientSize(field: string): Option<int>
  {
    var t := Strip(field, CharSpace);
    if t == "" then Some(0) else Int(t)
  }

  function LenientName(field: string): string
  {
    RStrip(field, CharSpace)
  }

  /** Every byte is a character of its own number. */
  function Lenient(): Reader
  {
    Reader(LenientSize, field => Some(field), LenientName)
  }

  function NameField(raw: string, off: int): string
  {
    Slice(raw, off, off + 16)
  }

  function SizeField(raw: string, off: int): string
  {
    Slice(raw, off + 48, off + 58)
  }

  /** The loop takes the header at off and goes on. */
  predicate Goes(r: Reader, raw: string, off: int)
  {
    off + 60 <= |raw| && r.text(NameField(raw, off)).Some? && r.size(SizeField(raw, off)).Some?
  }

  function EntryAt(r: Reader, raw: string, off: int): Entry
    requires Goes(r, raw, off)
  {
    var size := r.size(SizeField(raw, off)).value;
    Entry(r.name(r.text(NameField(raw, off)).value), size, Slice(raw, off + 60, off + 60 + size))
  }

  function Next(r: Reader, raw: string, off: int): int
    requires Goes(r, raw, off)
  {
    off + Skip(EntryAt(r, raw, off).size)
  }

  /** The loop leaves off after at most n headers. */
  ghost predicate EndsIn(r: Reader, raw: string, off: int, n: nat)
    decreases n
  {
    Goes(r, raw, off) ==> n > 0 && EndsIn(r, raw, Next(r, raw, off), n - 1)
  }

  ghost predicate Ends(r: Reader, raw: string, off: int)
  {
    exists n :: EndsIn(r, raw, off, n)
  }

  /** What the loop returns where it stops. */
  function Stopped(r: Reader, raw: string, off: int): (Result<seq<Entry>>, int)
  {
    (if off + 60 > |raw| then Ok([]) else if r.text(NameField(raw, off)).None? then Err(NotText) else Err(BadSize), off)
  }

  ghost function ListedIn(r: Reader, raw: string, off: int, n: nat): (Result<seq<Entry>>, int)
    requires EndsIn(r, raw, off, n)
    decreases n
  {
    if Goes(r, raw, off) then
      var (rest, end) := ListedIn(r, raw, Next(r, raw, off), n - 1);
      (Before([EntryAt(r, raw, off)], rest), end)
    else Stopped(r, raw, off)
  }

  /** The members listed from offset off on, and the offset where listing stops. */
  ghost function Listed(r: Reader, raw: string, off: int): (Result<seq<Entry>>, int)
  {
    if Ends(r, raw, off) then
      var n :| EndsIn(r, raw, off, n);
      ListedIn(r, raw, off, n)
    else (Err(Unending), 0)
  }

  lemma {:induction false} ListedSame(r: Reader, raw: string, off: int, n: nat, m: nat)
    requires EndsIn(r, raw, off, n) && EndsIn(r, raw, off, m)
    ensures ListedIn(r, raw, off, n) == ListedIn(r, raw, off, m)
    decreases n
  {
    if Goes(r, raw, off) {
      ListedSame(r, raw, Next(r, raw, off), n - 1, m - 1);
    }
  }

  lemma EndsNext(r: Reader, raw: string, off: int)
    requires Goes(r, raw, off)
    ensures Ends(r, raw, off) <==> Ends(r, raw, Next(r, raw, off))
  {
    if n: nat :| EndsIn(r, raw, Next(r, raw, off), n) {
      assert EndsIn(r, raw, off, n + 1);
    }
    if n: nat :| EndsIn(r, raw, off, n) {
      assert EndsIn(r, raw, Next(r, raw, off), n - 1);
    }
  }

  /** Listing unfolds header by header, whether the loop ends or not. */
  lemma ListedStep(r: Reader, raw: string, off: int)
    ensures Goes(r, raw, off) ==>
              var (rest, end) := Listed(r, raw, Next(r, raw, off));
              Listed(r, raw, off) == (Before([EntryAt(r, raw, off)], rest), end)
    ensures !Goes(r, raw, off) ==> Listed(r, raw, off) == Stopped(r, raw, off)
  {
    if !Goes(r, raw, off) {
      assert EndsIn(r, raw, off, 0);
    } else {
      EndsNext(r, raw, off);
      if n: nat :| EndsIn(r, raw, off, n) {
        ListedOf(r, raw, off, n);
        ListedOf(r, raw, Next(r, raw, off), n - 1);
      }
    }
  }

  lemma ListedOf(r: Reader, raw: string, off: int, n: nat)
    requires EndsIn(r, raw, off, n)
    ensures Listed(r, raw, off) == ListedIn(r, raw, off, n)
  {
    var m :| EndsIn(r, raw, off, m) && Listed(r, raw, off) == ListedIn(r, raw, off, m);
    ListedSame(r, raw, off, n, m);
  }

  function Before(out: seq<Entry>, rest: Result<seq<Entry>>): Result<seq<Entry>>
  {
    if rest.Ok? then Ok(out + rest.value) else rest
  }

  lemma BeforeBefore(out: seq<Entry>, e: Entry, rest: Result<seq<Entry>>)
    ensures Before(out, Before([e], rest)) == Before(out + [e], rest)
    ensures Before([], rest) == rest
  {
    if rest.Ok? {
      assert out + ([e] + rest.value) == (out + [e]) + rest.value;
      assert [] + rest.value == rest.value;
    }
  }

  /** `ar_members` for a way of reading headers, with the offset at which it stops; it may go backwards. */
  method ListMembers(r: Reader, blob: string) returns (listed: Result<seq<Entry>>, off: int)
    requires MAGIC <= blob && Ends(r, blob, 8)
    ensures (listed, off) == Listed(r, blob, 8)
  {
    off := 8;
    var out: seq<Entry> := [];
    ghost var n :| EndsIn(r, blob, 8, n);
    ghost var (all, end) := Listed(r, blob, 8);
    BeforeBefore([], Entry("", 0, ""), all);
    while off + 60 <= |blob|
      invariant EndsIn(r, blob, off, n)
      invariant all == Before(out, Listed(r, blob, off).0) && end == Listed(r, blob, off).1
      decreases n
    {
      ListedStep(r, blob, off);
      var e := ReadEntry(r, blob, off);
      if e.Err? {
        return Err(e.error), off;
      }
      BeforeBefore(out, e.value, Listed(r, blob, Next(r, blob, off)).0);
      out := out + [e.value];
      off := off + 60 + e.value.size + e.value.size % 2;
      n := n - 1;
    }
    ListedStep(r, blob, off);
    assert out + [] == out;
    return Ok(out), off;
  }

  /** The header at off, which may lie before the file. */
  method ReadEntry(r: Reader, blob: string, off: int) returns (e: Result<Entry>)
    requires off + 60 <= |blob|
    ensures e == if Goes(r, blob, off) then Ok(EntryAt(r, blob, off)) else Err(Stopped(r, blob, off).0.error)
  {
    var name := r.text(Slice(blob, off, off + 16));
    if name.None? {
      return Err(NotText);
    }
    var size := r.size(Slice(blob, off + 48, off + 58));
    if size.None? {
      return Err(BadSize);
    }
    return Ok(Entry(r.name(name.value), size.value, Slice(blob, off + 60, off + 60 + size.value)));
  }

  /** `ar_members`. */
  method ArMembers(blob: string) returns (listed: Result<seq<Entry>>, off: int)
    requires MAGIC <= blob ==> Ends(Lenient(), blob, 8)
    ensures if MAGIC <= blob then (listed, off) == Listed(Lenient(), blob, 8) else listed == Err(NotAr)
  {
    if Slice(blob, 0, 8) != MAGIC {
      return Err(NotAr), 0;
    }
    listed, off := ListMembers(Lenient(), blob);
  }

  // ----- the strict reader

  function StrictSize(field: string): Option<int>
  {
    Int(Strip(field, ByteSpace))
  }

  function StrictName(text: string): string
  {
    RStrip(Strip(text, CharSpace), Slash)
  }

  function Strict(): Reader
  {
    Reader(StrictSize, Decode, StrictName)
  }

  datatype Data = Nothing | Found(payload: string)

  /** What the walk makes of the header at pos: the size, or why it stops. */
  function SizeAt(r: Reader, raw: string, pos: nat): (size: Result<nat>)
    ensures size.Ok? ==> pos + 60 + size.value <= |raw| && r.text(raw[pos..pos + 16]).Some?
  {
    if pos + 60 > |raw| || raw[pos + 58..pos + 60] != END then Err(Malformed)
    else
      match r.size(raw[pos + 48..pos + 58])
      case None => Err(BadSize)
      case Some(size) =>
        if r.text(raw[pos..pos + 16]).None? then Err(NotText)
        else if size < 0 || pos + 60 + size > |raw| then Err(Truncated)
        else Ok(size)
  }

  /** The data archive after a member: the first one is kept, a second one refused. */
  function Take(name: string, payload: string, data: Data): Result<Data>
  {
    if name != WANTED then Ok(data)
    else if data.Found? then Err(Duplicate)
    else Ok(Found(payload))
  }

  function Walk(r: Reader, raw: string, pos: nat, data: Data): Result<Data>
    decreases |raw| - pos
  {
    if pos >= |raw| then Ok(data)
    else
      match SizeAt(r, raw, pos)
      case Err(e) => Err(e)
      case Ok(size) =>
        match Take(r.name(r.text(raw[pos..pos + 16]).value), raw[pos + 60..pos + 60 + size], data)
        case Err(e) => Err(e)
        case Ok(more) => Walk(r, raw, pos + Skip(size), more)
  }

  function Outcome(r: Result<Data>): Result<string>
  {
    match r
    case Err(e) => Err(e)
    case Ok(Nothing) => Err(Missing)
    case Ok(Found(payload)) => Ok(payload)
  }

  /** The walk of `check` for a way of reading headers. */
  method WalkMembers(r: Reader, raw: string) returns (data: Result<Data>)
    requires MAGIC <= raw
    ensures data == Walk(r, raw, 8, Nothing)
  {
    var pos, found := 8, Nothing;
    while pos < |raw|
      invariant Walk(r, raw, 8, Nothing) == Walk(r, raw, pos, found)
      decreases |raw| - pos
    {
      var header := ReadHeader(r, raw, pos);
      if header.Err? {
        return Err(header.error);
      }
      var size, blob := header.value, raw[pos + 60..pos + 60 + header.value];
      if r.name(r.text(raw[pos..pos + 16]).value) == WANTED {
        if found.Found? {
          return Err(Duplicate);
        }
        found := Found(blob);
      }
      pos := pos + 60 + size + size % 2;
    }
    return Ok(found);
  }

  /** The header at pos: its size, or why the walk stops. A slice never has a negative length. */
  method ReadHeader(r: Reader, raw: string, pos: nat) returns (result: Result<nat>)
    requires pos < |raw|
    ensures result == SizeAt(r, raw, pos)
  {
    var header := Slice(raw, pos, pos + 60);
    if |header| != 60 || header[58..] != END {
      if |header| == 60 {
        HeaderFields(raw, pos);
      }
      return Err(Malformed);
    }
    HeaderFields(raw, pos);
    var size := r.size(header[48..58]);
    if size.None? {
      return Err(BadSize);
    }
    if r.text(header[..16]).None? {
      return Err(NotText);
    }
    if |Slice(raw, pos + 60, pos + 60 + size.value)| != size.value {
      return Err(Truncated);
    }
    return Ok(size.value);
  }

  lemma HeaderFields(raw: string, pos: nat)
    requires pos + 60 <= |raw|
    ensures var header := raw[pos..pos + 60];
            && header[..16] == raw[pos..pos + 16] && header[48..58] == raw[pos + 48..pos + 58]
            && header[58..] == raw[pos + 58..pos + 60]
  {
    Inner(raw, pos, pos + 60, 0, 16);
    Inner(raw, pos, pos + 60, 48, 58);
    Inner(raw, pos, pos + 60, 58, 60);
  }

  /** The walk of `check`: the bytes of the one data archive. */
  method FindData(raw: string) returns (r: Result<string>)
    ensures r == if MAGIC <= raw then Outcome(Walk(Strict(), raw, 8, Nothing)) else Err(NotAr)
  {
    if !(MAGIC <= raw) {
      return Err(NotAr);
    }
    var data := WalkMembers(Strict(), raw);
    return Outcome(data);
  }
}
