/** Directory lookup on ISO 9660 discs: the records of a directory's blocks, and versions that are named outright or
    counted back from the newest. */
module Cdfs {
  import opened Common
  import opened Numbers

  const BLOCKSIZE: nat := 2048
  const FILENAME_MAX: nat := 256

  /** What may be looked at past the block when its last record is shorter than its fixed part and identifier. */
  const SLACK: nat := 288

  /** Offsets within a directory record; its length is at 0. */
  const FILEFLAGS: nat := 25
  const IDLENGTH: nat := 32
  const IDENTIFIER: nat := 33

  /** The buffer a block has been read into, and the memory behind it. */
  type Page = p: seq<byte> | |p| == BLOCKSIZE + SLACK witness seq(BLOCKSIZE + SLACK, _ => 0)

  /** A stretch of a page. */
  datatype Span = Span(start: nat, length: nat)

  /** A named record of a block, with the version it has and where it is. */
  datatype Entry = Entry(name: string, version: nat, block: nat, ofs: nat)

  function Chars(s: seq<byte>): string {
    seq(|s|, i requires 0 <= i < |s| => s[i] as char)
  }

  /** Where a character is first, or the length. */
  function IndexOf(s: string, c: char): (r: nat)
    ensures r <= |s| && c !in s[..r] && (r < |s| ==> s[r] == c)
  {
    if s == "" || s[0] == c then 0 else 1 + IndexOf(s[1..], c)
  }

  predicate IsDirectory(page: Page, rec: nat)
    requires rec < BLOCKSIZE
  {
    page[rec + FILEFLAGS] / 2 % 2 == 1
  }

  /** The Rock Ridge name in the extension fields from `p` on, if there is a good one. */
  function NameField(page: Page, rec: nat, p: nat): (r: Option<Span>)
    requires rec < BLOCKSIZE && rec + page[rec] <= BLOCKSIZE && p >= rec
    ensures r.Some? ==> p < r.value.start && r.value.start + r.value.length <= rec + page[rec]
    decreases rec + page[rec] - p
  {
    if p >= rec + page[rec] then None
    else
      var l := page[p + 2];
      if l < 4 || p + l > rec + page[rec] then None
      else if page[p] == 'N' as int && page[p + 1] == 'M' as int
              && l > 5 && page[p + 3] == 1 && page[p + 4] % 2 == 0 then
        Some(Span(p + 5, l - 5))
      else NameField(page, rec, p + l)
  }

  /** Extension fields start at an even offset. */
  function Fields(page: Page, rec: nat): nat
    requires rec < BLOCKSIZE
  {
    var l := IDENTIFIER + page[rec + IDLENGTH];
    rec + l + l % 2
  }

  function NameSpan(page: Page, rec: nat): (r: Span)
    requires rec < BLOCKSIZE && rec + page[rec] <= BLOCKSIZE
    ensures r.start + r.length <= BLOCKSIZE + SLACK
  {
    var field := NameField(page, rec, Fields(page, rec));
    if field.Some? then field.value else Span(rec + IDENTIFIER, page[rec + IDLENGTH])
  }

  /** The name of a record as a C string, with a slash for a directory. */
  function RawName(page: Page, rec: nat): string
    requires rec < BLOCKSIZE && rec + page[rec] <= BLOCKSIZE
  {
    var span := NameSpan(page, rec);
    var size := if IsDirectory(page, rec) then FILENAME_MAX - 1 else FILENAME_MAX;
    var l := if span.length >= size then size - 1 else span.length;
    var name := Chars(page[span.start..span.start + l]) + if IsDirectory(page, rec) then "/" else "";
    name[..IndexOf(name, '\0')]
  }

  /** Name and version; without a version it is 1. */
  function Named(name: string, block: nat, ofs: nat): Entry {
    var semi := IndexOf(name, ';');
    if semi == |name| then Entry(name, 1, block, ofs) else Entry(name[..semi], ReadNumber(name, semi + 1).0, block, ofs)
  }

  /** The version is the number behind the first semicolon; a name without one has version 1. */
  lemma NamedIs(name: string, version: nat, block: nat, ofs: nat)
    requires ';' !in name && version < WORD
    ensures Named(name, block, ofs) == Entry(name, 1, block, ofs)
    ensures Named(name + ";" + Numeral(version, 10), block, ofs) == Entry(name, version, block, ofs)
  {
    hide Numeral, IndexOf, DigitValue;
    IndexIs(name, ';', |name|);
    var digits := Numeral(version, 10);
    var full := name + ";" + digits;
    IndexIs(full, ';', |name|);
    NumeralIsDigits(version);
    assert full[|name| + 1..|name| + 1 + |digits|] == digits && digits[0] in digits;
    if |digits| > 1 { assert digits[1] in digits; }
    NullDigit();
    RoundTrip(full, |name| + 1, version);
    assert full[..|name|] == name;
  }

  lemma NullDigit()
    ensures DigitValue('\0', 10) < 0
  {}

  /** Without a Rock Ridge name a record's name is its identifier, byte for byte; a directory's has a slash behind
      it. */
  lemma RawNameIs(page: Page, rec: nat)
    requires rec < BLOCKSIZE && rec + page[rec] <= BLOCKSIZE && NameField(page, rec, Fields(page, rec)).None?
    requires page[rec + 32] < 255 && forall i :: rec + 33 <= i < rec + 33 + page[rec + 32] ==> page[i] != 0
    ensures var name, l, dir := RawName(page, rec), page[rec + 32], page[rec + 25] / 2 % 2 == 1;
            && |name| == l + (if dir then 1 else 0) && (dir ==> name[l] == '/')
            && Spells(name[..l], page[rec + 33..rec + 33 + l])
  {
    hide NameField, IndexOf;
    var l := page[rec + 32];
    var chars := Chars(page[rec + 33..rec + 33 + l]);
    var name := chars + if IsDirectory(page, rec) then "/" else "";
    var bytes := page[rec + 33..rec + 33 + l];
    assert forall k :: 0 <= k < l ==> bytes[k] == page[rec + 33 + k] && bytes[k] != 0;
    assert Spells(chars, bytes) && '\0' !in chars;
    IndexIs(name, '\0', |name|);
    assert name[..|name|] == name && name[..l] == chars;
  }

  ghost predicate Spells(name: string, bytes: seq<byte>) {
    |name| == |bytes| && forall k :: 0 <= k < |bytes| ==> name[k] as int == bytes[k]
  }

  /** A Rock Ridge name is behind the five bytes of a field that says `NM`, version 1 and not continued; where a field
      is not that but well formed, the next one is looked at. */
  lemma NameFieldIs(page: Page, rec: nat, p: nat)
    requires rec < BLOCKSIZE && rec + page[rec] <= BLOCKSIZE && rec <= p < rec + page[rec]
    requires 4 <= page[p + 2] && p + page[p + 2] <= rec + page[rec]
    ensures var l := page[p + 2];
            if page[p] == 0x4E && page[p + 1] == 0x4D && page[p + 3] == 1 && page[p + 4] % 2 == 0 && l > 5 then
              NameField(page, rec, p) == Some(Span(p + 5, l - 5))
            else NameField(page, rec, p) == NameField(page, rec, p + l)
  {}

  /** The record names nothing that can be looked up: it has no name, or is the directory itself or its parent. */
  predicate IsNameless(page: Page, rec: nat)
    requires rec < BLOCKSIZE
  {
    page[rec + IDLENGTH] == 0 || page[rec + IDENTIFIER] == 0 || page[rec + IDENTIFIER] == 1
  }

  datatype Listing = Listing(entries: seq<Entry>, corrupt: bool)

  /** The named records of a block from `offs` on, up to the end or to one that does not fit. */
  function Records(page: Page, block: nat, offs: nat): Listing
    requires offs <= BLOCKSIZE
    decreases BLOCKSIZE - offs
  {
    if offs == BLOCKSIZE || page[offs] == 0 then Listing([], false)
    else if page[offs] > BLOCKSIZE - offs then Listing([], true)
    else
      var rest := Records(page, block, offs + page[offs]);
      if IsNameless(page, offs) then rest
      else Listing([Named(RawName(page, offs), block, offs)] + rest.entries, rest.corrupt)
  }

  /** A record that fits is listed by its name and place, and the next follows on it; but not one without a name, nor
      the directory itself or its parent. */
  lemma RecordListed(page: Page, block: nat, offs: nat)
    requires offs < BLOCKSIZE && 0 < page[offs] <= BLOCKSIZE - offs
    ensures var rest := Records(page, block, offs + page[offs]);
            if page[offs + 32] == 0 || page[offs + 33] in {0, 1} then Records(page, block, offs) == rest
            else
              && Records(page, block, offs).corrupt == rest.corrupt
              && Records(page, block, offs).entries == [Named(RawName(page, offs), block, offs)] + rest.entries
              && Named(RawName(page, offs), block, offs).block == block
              && Named(RawName(page, offs), block, offs).ofs == offs
  {
    hide RawName, IndexOf;
  }

  /** What is asked for. */
  datatype Wanted = Wanted(fname: string, relative: bool, version: nat)

  datatype Search = Search(found: Option<nat>, left: nat)

  /** The entry ends the search. */
  predicate Hit(e: Entry, w: Wanted) {
    e.name == w.fname && (w.version == 0 || (!w.relative && e.version == w.version))
  }

  /** What is wanted once an entry has been passed over. */
  function PassOver(e: Entry, w: Wanted): Wanted {
    if e.name == w.fname && w.relative && w.version > 0 then w.(version := w.version - 1) else w
  }

  /** The search as the scan does it: `left` is the version counter, which goes on from block to block. */
  function SearchFor(entries: seq<Entry>, w: Wanted): (r: Search)
    ensures r.found.Some? ==> r.found.value < |entries|
  {
    if entries == [] then Search(None, w.version)
    else if Hit(entries[0], w) then Search(Some(0), w.version)
    else
      var rest := SearchFor(entries[1..], PassOver(entries[0], w));
      if rest.found.Some? then Search(Some(1 + rest.found.value), rest.left) else rest
  }

  /** Searching on with the counter left by one block is searching both blocks at once. */
  lemma {:induction false} SearchGoesOn(a: seq<Entry>, b: seq<Entry>, w: Wanted)
    ensures var first := SearchFor(a, w);
            var second := SearchFor(b, w.(version := first.left));
            SearchFor(a + b, w) ==
              if first.found.Some? then first
              else if second.found.Some? then Search(Some(|a| + second.found.value), second.left) else second
  {
    hide Hit;
    if a == [] {
      assert a + b == b;
    } else {
      assert (a + b)[1..] == a[1..] + b && (a + b)[0] == a[0];
      if !Hit(a[0], w) {
        assert forall v :: PassOver(a[0], w).(version := v) == w.(version := v);
        hide PassOver;
        SearchGoesOn(a[1..], b, PassOver(a[0], w));
      }
    }
  }

  /** How many of the entries have the name. */
  function Count(entries: seq<Entry>, name: string): nat {
    if entries == [] then 0 else (if entries[0].name == name then 1 else 0) + Count(entries[1..], name)
  }

  /** The entry that is asked for: the first that has the version named, or the one that has as many of its name
      before it as it is to be older than the newest. */
  ghost predicate IsChosen(entries: seq<Entry>, w: Wanted, i: nat) {
    && i < |entries| && entries[i].name == w.fname
    && if w.relative || w.version == 0 then Count(entries[..i], w.fname) == w.version
       else
         && entries[i].version == w.version
         && forall j :: 0 <= j < i && entries[j].name == w.fname ==> entries[j].version != w.version
  }

  /** The search finds that entry, and nothing if there is none. */
  lemma {:induction false} SearchChooses(entries: seq<Entry>, w: Wanted)
    ensures var r := SearchFor(entries, w);
            if r.found.Some? then IsChosen(entries, w, r.found.value) else forall i :: !IsChosen(entries, w, i)
  {
    if entries == [] {
    } else if Hit(entries[0], w) {
      assert entries[..0] == [];
    } else {
      var rest := entries[1..];
      var next := PassOver(entries[0], w);
      SearchChooses(rest, next);
      forall i | 0 < i < |entries| ensures IsChosen(entries, w, i) <==> IsChosen(rest, next, i - 1) {
        ChosenLater(entries, w, i);
      }
      assert entries[..0] == [];
    }
  }

  lemma ChosenLater(entries: seq<Entry>, w: Wanted, i: nat)
    requires 0 < i < |entries| && !Hit(entries[0], w)
    ensures IsChosen(entries, w, i) <==> IsChosen(entries[1..], PassOver(entries[0], w), i - 1)
  {
    assert entries[..i][1..] == entries[1..][..i - 1];
    if !(w.relative || w.version == 0) {
      assert forall j :: 0 <= j < i - 1 ==> entries[1..][j] == entries[j + 1];
      assert forall j :: 0 < j < i ==> entries[j] == entries[1..][j - 1];
    }
  }

  /** Records of one name in the order of section 9.3 of ECMA-119: the newest version first. */
  ghost predicate NewestFirst(entries: seq<Entry>, name: string) {
    forall i, j :: 0 <= i < j < |entries| && entries[i].name == entries[j].name == name ==>
      entries[i].version > entries[j].version
  }

  /** How many versions of a name are newer. */
  function Newer(entries: seq<Entry>, name: string, version: nat): nat {
    if entries == [] then 0
    else (if entries[0].name == name && entries[0].version > version then 1 else 0) + Newer(entries[1..], name, version)
  }

  /** With the newest first, counting back is by age: as many versions are newer as the number says. And a version
      that is named is the only one of that number. */
  lemma {:induction false} ChosenByAge(entries: seq<Entry>, w: Wanted, i: nat)
    requires NewestFirst(entries, w.fname) && IsChosen(entries, w, i)
    ensures if w.relative || w.version == 0 then Newer(entries, w.fname, entries[i].version) == w.version
            else
              forall j :: 0 <= j < |entries| && entries[j].name == w.fname && entries[j].version == w.version ==> j == i
  {
    NewerAreBefore(entries, w.fname, i);
  }

  lemma {:induction false} NewerAreBefore(entries: seq<Entry>, name: string, i: nat)
    requires NewestFirst(entries, name) && i < |entries| && entries[i].name == name
    ensures Newer(entries, name, entries[i].version) == Count(entries[..i], name)
  {
    if i == 0 {
      NoneNewer(entries[1..], name, entries[0].version);
    } else {
      assert entries[..i][1..] == entries[1..][..i - 1];
      NewerAreBefore(entries[1..], name, i - 1);
    }
  }

  lemma {:induction false} NoneNewer(entries: seq<Entry>, name: string, version: nat)
    requires forall j :: 0 <= j < |entries| && entries[j].name == name ==> entries[j].version <= version
    ensures Newer(entries, name, version) == 0
  {
    if entries != [] { NoneNewer(entries[1..], name, version); }
  }

  /** What comes of a lookup. */
  datatype Status =
    | Success(block: nat, ofs: nat, name: string) | Itself | NoSuchFile | FileNotADir | FilenameTooLong | BadFileVer
                  | BadFilename | FileHdrFull | DirCorrupt | ReadError(code: nat)

  datatype Parsed = Good(wanted: Wanted) | Bad(status: Status)

  /** The name asked for, and after a semicolon the version: `;n` for version n, `;-n` for the one n before the
      newest. */
  function Parse(name: CString): Parsed {
    if |name| >= FILENAME_MAX then Bad(FilenameTooLong)
    else
      var semi := IndexOf(name, ';');
      if semi == |name| then (if name == "" then Bad(BadFilename) else Good(Wanted(name, false, 0)))
      else
        var relative := At(name, semi + 1) == '-';
        var (version, end) := ReadDigits(name, if relative then semi + 2 else semi + 1, 10, 0);
        if end < |name| then Bad(BadFileVer)
        else if semi == 0 then Bad(BadFilename)
        else Good(Wanted(name[..semi], relative, version))
  }

  /** The name given back, with the version of what was found unless it is a directory. */
  function NameBack(fname: string, version: nat): string {
    if EndsInSlash(fname) then fname
    else if |fname| + 1 > FILENAME_MAX then fname
    else fname + ";" + Truncated(Numeral(version, 10), FILENAME_MAX - (|fname| + 1))
  }

  /** A file's name comes back with its version in decimal, a directory's as it is. */
  lemma NameBackIs(fname: string, version: nat)
    requires fname != "" && |fname| + 1 + |Numeral(version, 10)| < 256
    ensures NameBack(fname, version) == if fname[|fname| - 1] == '/' then fname else fname + ";" + Numeral(version, 10)
  {}

  lemma IndexIs(s: string, c: char, i: nat)
    requires i <= |s| && c !in s[..i] && (i < |s| ==> s[i] == c)
    ensures IndexOf(s, c) == i
  {
    var k := IndexOf(s, c);
    assert forall j :: 0 <= j < i ==> s[..i][j] == s[j];
    assert forall j :: 0 <= j < k ==> s[..k][j] == s[j];
  }

  lemma {:induction false} NumeralIsDigits(v: nat)
    ensures forall c :: c in Numeral(v, 10) ==> '0' <= c <= '9'
  {
    if v >= 10 { NumeralIsDigits(v / 10); }
  }

  /** A version that is written out is the version that is asked for. */
  lemma ParsePrinted(fname: CString, relative: bool, version: nat)
    requires fname != "" && ';' !in fname && version < WORD
    requires |fname| + (if relative then 2 else 1) + |Numeral(version, 10)| < FILENAME_MAX
    ensures (forall c :: c in Numeral(version, 10) ==> c != '\0')
    ensures Parse(fname + (if relative then ";-" else ";") + Numeral(version, 10)) ==
              Good(Wanted(fname, relative, version))
  {
    hide Numeral, DigitValue, IndexOf;
    NumeralIsDigits(version);
    var mark, digits := if relative then ";-" else ";", Numeral(version, 10);
    var name := fname + mark + digits;
    IndexIs(name, ';', |fname|);
    var p := |fname| + |mark|;
    assert name[p..p + |digits|] == digits;
    assert digits[0] in digits;
    assert At(name, |fname| + 1) == if relative then '-' else digits[0];
    ReadNumeral(name, p, version, 10);
  }

  /** Without a version the newest is asked for; a name may be neither too long nor missing. */
  lemma ParseIs(name: CString)
    ensures |name| >= 256 ==> Parse(name) == Bad(FilenameTooLong)
    ensures name != "" && |name| < 256 && ';' !in name ==> Parse(name) == Good(Wanted(name, false, 0))
    ensures Parse("") == Bad(BadFilename)
  {
    hide IndexOf, ReadDigits, DigitValue;
    IndexIs("", ';', 0);
    if ';' !in name { IndexIs(name, ';', |name|); }
  }

  /** What is behind the semicolon, and the minus if there is one, has to be digits. */
  lemma BadVersion(fname: CString, rest: CString)
    requires ';' !in fname && |fname| + 1 + |rest| < 256 && rest != "" && rest != "-"
    requires rest[|rest| - 1] < '0' || '9' < rest[|rest| - 1]
    ensures Parse(fname + ";" + rest) == Bad(BadFileVer)
  {
    hide IndexOf, ReadDigits, DigitValue;
    var name := fname + ";" + rest;
    IndexIs(name, ';', |fname|);
    NoDigitLast(name, if At(name, |fname| + 1) == '-' then |fname| + 2 else |fname| + 1, 0);
  }

  lemma {:induction false} NoDigitLast(s: string, p: nat, acc: nat)
    requires p < |s| && acc < WORD && (s[|s| - 1] < '0' || '9' < s[|s| - 1])
    ensures ReadDigits(s, p, 10, acc).1 < |s|
    decreases |s| - p
  {
    if DigitValue(s[p], 10) >= 0 { NoDigitLast(s, p + 1, (acc * 10 + DigitValue(s[p], 10)) % WORD); }
  }

  datatype BlockRead = Block(page: Page) | Unreadable(code: nat)

  /** A directory file; its blocks follow each other on the disc, from `extent` on. */
  datatype Directory = Directory(isDirectory: bool, interleaved: bool, extent: nat, blocks: seq<BlockRead>)

  /** All that a directory has to search, and what a search that finds nothing in it ends with. */
  datatype Catalog = Catalog(entries: seq<Entry>, stop: Status)

  function CatalogFrom(dir: Directory, i: nat): Catalog
    requires i <= |dir.blocks|
    decreases |dir.blocks| - i
  {
    if i == |dir.blocks| then Catalog([], NoSuchFile)
    else if dir.interleaved then Catalog([], FileHdrFull)
    else if dir.blocks[i].Unreadable? then Catalog([], ReadError(dir.blocks[i].code))
    else
      var here := Records(dir.blocks[i].page, dir.extent + i, 0);
      if here.corrupt then Catalog(here.entries, DirCorrupt)
      else
        var rest := CatalogFrom(dir, i + 1);
        Catalog(here.entries + rest.entries, rest.stop)
  }

  /** What a search of some entries comes to. */
  function Outcome(entries: seq<Entry>, w: Wanted, stop: Status): Status {
    var r := SearchFor(entries, w).found;
    if r == None then stop
    else Success(entries[r.value].block, entries[r.value].ofs, NameBack(w.fname, entries[r.value].version))
  }

  /** Lookup as one search of the whole directory. */
  function Lookup(dir: Directory, name: CString): Status {
    if !dir.isDirectory then FileNotADir
    else if name == "" then Itself
    else
      match Parse(name)
      case Bad(status) => status
      case Good(w) => var c := CatalogFrom(dir, 0); Outcome(c.entries, w, c.stop)
  }

  /** A block that has been searched in vain leaves the counter for the others. */
  lemma NextBlock(dir: Directory, i: nat, w: Wanted)
    requires i < |dir.blocks| && !dir.interleaved && dir.blocks[i].Block?
    ensures var here := Records(dir.blocks[i].page, dir.extent + i, 0);
            var c := CatalogFrom(dir, i);
            var r := SearchFor(here.entries, w);
            && (r.found.Some? ==> Outcome(c.entries, w, c.stop) == Outcome(here.entries, w, NoSuchFile))
            && (r.found == None && here.corrupt ==> Outcome(c.entries, w, c.stop) == DirCorrupt)
            && (r.found == None && !here.corrupt ==>
                  var rest := CatalogFrom(dir, i + 1);
                  Outcome(c.entries, w, c.stop) == Outcome(rest.entries, w.(version := r.left), rest.stop))
  {
    hide Records, SearchFor, NameBack;
    var here := Records(dir.blocks[i].page, dir.extent + i, 0);
    if !here.corrupt { SearchGoesOn(here.entries, CatalogFrom(dir, i + 1).entries, w); }
  }

  class Volex {
    var fname: string
    var versign: int
    var version: nat
    var lastname: string

    function Sought(): Wanted
      reads this
    {
      Wanted(fname, versign < 0, version)
    }

    /** strchr. */
    static method Find(s: string, c: char) returns (i: nat)
      ensures i == IndexOf(s, c)
    {
      i := 0;
      while i < |s| && s[i] != c
        invariant i <= |s| && c !in s[..i]
      {
        i := i + 1;
      }
      IndexIs(s, c, i);
    }

    /** Looks for a Rock Ridge name, field by field. */
    static method FindName(page: Page, rec: nat) returns (span: Span)
      requires rec < BLOCKSIZE && rec + page[rec] <= BLOCKSIZE
      ensures span == NameSpan(page, rec)
    {
      var p := rec + IDENTIFIER + page[rec + IDLENGTH];
      if (p - rec) % 2 == 1 { p := p + 1; }
      span := Span(rec + IDENTIFIER, page[rec + IDLENGTH]);
      while p < rec + page[rec]
        invariant p >= rec && NameField(page, rec, Fields(page, rec)) == NameField(page, rec, p)
        decreases rec + page[rec] - p
      {
        var l := page[p + 2];
        if l < 4 || p + l > rec + page[rec] { break; }
        if page[p] == 'N' as int && page[p + 1] == 'M' as int && l > 5 && page[p + 3] == 1 && page[p + 4] % 2 == 0 {
          return Span(p + 5, l - 5);
        }
        p := p + l;
      }
    }

    /** Copies the name, as much as there is room for, and appends the slash of a directory. */
    static method CopyName(page: Page, rec: nat, span: Span) returns (name: string)
      requires rec < BLOCKSIZE && rec + page[rec] <= BLOCKSIZE && span == NameSpan(page, rec)
      ensures name == RawName(page, rec)
    {
      hide NameSpan, IndexOf, Chars;
      var size, l := FILENAME_MAX, span.length;
      if IsDirectory(page, rec) { size := size - 1; }
      if l >= size { l := size - 1; }
      name := Chars(page[span.start..span.start + l]);
      if IsDirectory(page, rec) { name := name + "/"; } else { name := name + ""; }
      var end := Find(name, '\0');
      name := name[..end];
    }

    /** getfnfromdirrec. */
    static method GetFileName(page: Page, rec: nat) returns (name: string, version: nat)
      requires rec < BLOCKSIZE && rec + page[rec] <= BLOCKSIZE
      ensures version < WORD
              && forall block, ofs :: Named(RawName(page, rec), block, ofs) == Entry(name, version, block, ofs)
    {
      hide NameSpan, RawName, ReadNumber, IndexOf;
      var span := FindName(page, rec);
      name := CopyName(page, rec, span);
      version := 1;
      var semi := Find(name, ';');
      if semi < |name| {
        var used;
        version, used := Atoi(name, semi + 1);
        name := name[..semi];
      }
    }

    /** The name to give back. */
    method NameFound(found: nat) returns (name: string)
      requires found < WORD
      ensures name == NameBack(fname, found)
    {
      name := fname;
      if fname == "" || fname[|fname| - 1] != '/' {
        if |name| + 1 <= FILENAME_MAX {
          name := name + ";";
          var digits := ToString(found, FILENAME_MAX - |name|, 10);
          name := name + digits;
        }
      }
    }

    /** lookup_file_scan: the counter of the volume goes down as versions are skipped. */
    method Scan(page: Page, block: nat) returns (status: Status)
      modifies this`version, this`lastname
      ensures var here := Records(page, block, 0);
              && status == Outcome(here.entries, old(Sought()), if here.corrupt then DirCorrupt else NoSuchFile)
              && version == SearchFor(here.entries, old(Sought())).left
    {
      hide SearchFor, Outcome, RawName, Named, NameBack;
      var offs := 0;
      ghost var all := Records(page, block, 0);
      ghost var stop := if all.corrupt then DirCorrupt else NoSuchFile;
      while offs < BLOCKSIZE
        invariant offs <= BLOCKSIZE
        invariant Records(page, block, offs).corrupt == all.corrupt
        invariant Outcome(Records(page, block, offs).entries, Sought(), stop) ==
                    Outcome(all.entries, old(Sought()), stop)
        invariant SearchFor(Records(page, block, offs).entries, Sought()).left ==
                    SearchFor(all.entries, old(Sought())).left
      {
        SearchNone(Sought(), stop);
        if page[offs] == 0 { break; }
        if page[offs] > BLOCKSIZE - offs { return DirCorrupt; }
        var rec := offs;
        offs := offs + page[offs];
        if page[rec + IDLENGTH] == 0 { continue; }
        if page[rec + IDENTIFIER] == 0 || page[rec + IDENTIFIER] == 1 { continue; }
        var found;
        lastname, found := GetFileName(page, rec);
        ghost var rest := Records(page, block, offs).entries;
        assert Records(page, block, rec).entries == [Entry(lastname, found, block, rec)] + rest;
        SearchOne(Entry(lastname, found, block, rec), rest, Sought(), stop);
        if fname != lastname { continue; }
        if version == 0 || (versign >= 0 && found == version) {
          var name := NameFound(found);
          return Success(block, rec, name);
        }
        if versign < 0 { version := version - 1; }
      }
      SearchNone(Sought(), stop);
      status := NoSuchFile;
    }

    /** Takes the name apart into name, sign and version. */
    method ParseName(name: CString) returns (status: Status)
      requires name != ""
      modifies this`fname, this`versign, this`version
      ensures match Parse(name) case Bad(s) => status == s != Itself case Good(w) => status == Itself && Sought() == w
    {
      hide IndexOf, ReadDigits;
      if |name| >= FILENAME_MAX { return FilenameTooLong; }
      fname, version, versign := name, 0, 0;
      var semi := Find(name, ';');
      if semi < |name| {
        fname := name[..semi];
        if At(name, semi + 1) == '-' { versign := -1; }
        var end;
        version, end := ReadLoop(name, if versign != 0 then semi + 2 else semi + 1, 10);
        if end < |name| { return BadFileVer; }
      }
      if |fname| + 1 < 2 { return BadFilename; }
      status := Itself;
    }

    /** lookup_file: block after block until one has it, with the counter carried along. */
    method LookupFile(dir: Directory, name: CString) returns (status: Status)
      modifies this
      ensures status == Lookup(dir, name)
    {
      hide Parse, Outcome, Records, SearchFor, CatalogFrom;
      if !dir.isDirectory { return FileNotADir; }
      if name == "" { return Itself; }
      status := ParseName(name);
      if status != Itself { return; }
      ghost var c := CatalogFrom(dir, 0);
      ghost var goal := Outcome(c.entries, Sought(), c.stop);
      var vbn := 1;
      while vbn <= |dir.blocks|
        invariant 1 <= vbn <= |dir.blocks| + 1
        invariant var rest := CatalogFrom(dir, vbn - 1); Outcome(rest.entries, Sought(), rest.stop) == goal
      {
        ghost var w := Sought();
        CatalogEnds(dir, vbn - 1, w);
        if dir.interleaved { return FileHdrFull; }
        match dir.blocks[vbn - 1]
        case Unreadable(code) => return ReadError(code);
        case Block(page) =>
          NextBlock(dir, vbn - 1, w);
          status := Scan(page, dir.extent + vbn - 1);
          ScanStatus(Records(page, dir.extent + vbn - 1, 0).entries, w);
          if status != NoSuchFile { return; }
          vbn := vbn + 1;
      }
      CatalogEnds(dir, |dir.blocks|, Sought());
      status := NoSuchFile;
    }
  }

  lemma CatalogEnds(dir: Directory, i: nat, w: Wanted)
    requires i <= |dir.blocks|
    ensures var c := CatalogFrom(dir, i);
            && (i == |dir.blocks| ==> Outcome(c.entries, w, c.stop) == NoSuchFile)
            && (i < |dir.blocks| && dir.interleaved ==> Outcome(c.entries, w, c.stop) == FileHdrFull)
            && (i < |dir.blocks| && !dir.interleaved && dir.blocks[i].Unreadable? ==>
                  Outcome(c.entries, w, c.stop) == ReadError(dir.blocks[i].code))
  {
    hide Records;
  }

  lemma ScanStatus(entries: seq<Entry>, w: Wanted)
    ensures if SearchFor(entries, w).found.Some? then forall stop :: Outcome(entries, w, stop).Success?
            else forall stop :: Outcome(entries, w, stop) == stop
    ensures SearchFor(entries, w).found.Some? ==>
              forall stop, stop' :: Outcome(entries, w, stop) == Outcome(entries, w, stop')
  {
    hide SearchFor, NameBack;
  }

  lemma SearchNone(w: Wanted, stop: Status)
    ensures Outcome([], w, stop) == stop && SearchFor([], w).left == w.version
  {}

  lemma SearchOne(e: Entry, rest: seq<Entry>, w: Wanted, stop: Status)
    ensures var es := [e] + rest;
            if Hit(e, w) then
              Outcome(es, w, stop) == Success(e.block, e.ofs, NameBack(w.fname, e.version))
              && SearchFor(es, w).left == w.version
            else
              Outcome(es, w, stop) == Outcome(rest, PassOver(e, w), stop)
              && SearchFor(es, w).left == SearchFor(rest, PassOver(e, w)).left
  {
    hide NameBack;
    assert ([e] + rest)[1..] == rest;
  }

  /** A lookup finds the entry that is asked for among all that the directory has, whatever blocks they are in, and
      fails only if there is none. */
  lemma LookupChooses(dir: Directory, name: CString)
    requires dir.isDirectory && name != "" && Parse(name).Good?
    ensures var w, c := Parse(name).wanted, CatalogFrom(dir, 0);
            if exists i :: IsChosen(c.entries, w, i) then
              exists i: nat :: IsChosen(c.entries, w, i) &&
                Lookup(dir, name) ==
                  Success(c.entries[i].block, c.entries[i].ofs, NameBack(w.fname, c.entries[i].version))
            else Lookup(dir, name) == c.stop
  {
    hide SearchFor, IsChosen, NameBack, Parse, CatalogFrom;
    SearchChooses(CatalogFrom(dir, 0).entries, Parse(name).wanted);
  }

  /** The name given back leads to the same entry again, where relative versions have become the version itself, if and
      only if it names a version other than 0, which a directory's does not, or the entry is the first of its name. */
  lemma FoundAgain(dir: Directory, name: CString, i: nat)
    requires dir.isDirectory && name != "" && Parse(name).Good?
    requires var w, c := Parse(name).wanted, CatalogFrom(dir, 0);
             && NewestFirst(c.entries, w.fname) && IsChosen(c.entries, w, i) && FitsBack(w.fname, c.entries[i].version)
    ensures var w, e := Parse(name).wanted, CatalogFrom(dir, 0).entries[i];
            && '\0' !in NameBack(w.fname, e.version)
            && (Lookup(dir, NameBack(w.fname, e.version)) == Lookup(dir, name) <==>
                  (!EndsInSlash(w.fname) && e.version > 0) || Count(CatalogFrom(dir, 0).entries[..i], w.fname) == 0)
  {
    hide SearchFor, Parse, CatalogFrom, Numeral, NewestFirst, NameBack, EndsInSlash;
    var w, c := Parse(name).wanted, CatalogFrom(dir, 0);
    var e := c.entries[i];
    var again := Wanted(w.fname, false, if EndsInSlash(w.fname) then 0 else e.version);
    VersionsAreWords(dir, 0);
    ParsedName(name);
    ParsedBack(w.fname, e.version);
    SearchChooses(c.entries, w);
    SearchChooses(c.entries, again);
    OnlyOne(c.entries, w, i);
    assert SearchFor(c.entries, w).found == Some(i);
    ChosenAgain(c.entries, again, i);
    var k := SearchFor(c.entries, again).found.value;
    SamePlaceSameEntry(dir, k, i);
  }

  predicate EndsInSlash(fname: string) {
    fname != "" && fname[|fname| - 1] == '/'
  }

  /** The name given back is not cut off. */
  predicate FitsBack(fname: string, version: nat) {
    EndsInSlash(fname) || |fname| + 1 + |Numeral(version, 10)| < FILENAME_MAX
  }

  lemma ParsedBack(fname: string, version: nat)
    requires fname != "" && ';' !in fname && '\0' !in fname && |fname| < FILENAME_MAX && version < WORD
    requires FitsBack(fname, version)
    ensures '\0' !in NameBack(fname, version) && NameBack(fname, version) != ""
    ensures Parse(NameBack(fname, version)) == Good(Wanted(fname, false, if EndsInSlash(fname) then 0 else version))
  {
    if EndsInSlash(fname) {
      IndexIs(fname, ';', |fname|);
    } else {
      NumeralIsDigits(version);
      ParsePrinted(fname, false, version);
      assert NameBack(fname, version) == fname + ";" + Numeral(version, 10);
    }
  }

  /** The name alone, or with a version, is a request that some entry meets; which one. */
  lemma ChosenAgain(entries: seq<Entry>, again: Wanted, i: nat)
    requires NewestFirst(entries, again.fname) && i < |entries| && entries[i].name == again.fname
    requires !again.relative && (again.version == 0 || again.version == entries[i].version)
    ensures SearchFor(entries, again).found.Some?
    ensures SearchFor(entries, again).found == Some(i) <==> again.version > 0 || Count(entries[..i], again.fname) == 0
  {
    hide SearchFor;
    SearchChooses(entries, again);
    if again.version == 0 {
      var k := FirstOf(entries, again.fname, i);
      assert IsChosen(entries, again, k);
      OnlyOne(entries, again, k);
      if Count(entries[..i], again.fname) == 0 { assert IsChosen(entries, again, i); }
    } else {
      OneOfItsVersion(entries, again, i);
      assert IsChosen(entries, again, i);
    }
  }

  lemma {:induction false} FirstOf(entries: seq<Entry>, name: string, i: nat) returns (k: nat)
    requires i < |entries| && entries[i].name == name
    ensures k <= i && entries[k].name == name && Count(entries[..k], name) == 0
  {
    if entries[0].name == name {
      k := 0;
    } else {
      k := FirstOf(entries[1..], name, i - 1);
      k := k + 1;
      assert entries[..k][1..] == entries[1..][..k - 1];
    }
  }

  /** No two records are in the same place. */
  lemma SamePlaceSameEntry(dir: Directory, i: nat, j: nat)
    requires i < |CatalogFrom(dir, 0).entries| && j < |CatalogFrom(dir, 0).entries|
    ensures var es := CatalogFrom(dir, 0).entries;
            es[i].block == es[j].block && es[i].ofs == es[j].ofs ==> i == j
  {
    InOrder(dir, 0);
  }

  ghost predicate Ordered(entries: seq<Entry>) {
    forall k, m :: 0 <= k < m < |entries| ==> Before(entries[k], entries[m])
  }

  ghost predicate Before(a: Entry, b: Entry) {
    a.block < b.block || (a.block == b.block && a.ofs < b.ofs)
  }

  lemma OrderedJoin(a: seq<Entry>, b: seq<Entry>)
    requires Ordered(a) && Ordered(b) && forall x, y | x in a && y in b :: Before(x, y)
    ensures Ordered(a + b)
  {
    hide Before;
    var es := a + b;
    forall k, m | 0 <= k < m < |es| ensures Before(es[k], es[m]) {
      if k < |a| <= m { assert a[k] in a && b[m - |a|] in b; }
    }
  }

  lemma {:induction false} InOrder(dir: Directory, i: nat)
    requires i <= |dir.blocks|
    ensures Ordered(CatalogFrom(dir, i).entries) && forall e <- CatalogFrom(dir, i).entries :: e.block >= dir.extent + i
    decreases |dir.blocks| - i
  {
    hide Records, Ordered;
    NoneOrdered();
    if i < |dir.blocks| && !dir.interleaved && dir.blocks[i].Block? {
      var page := dir.blocks[i].page;
      RecordsInOrder(page, dir.extent + i, 0);
      InOrder(dir, i + 1);
      OrderedJoin(Records(page, dir.extent + i, 0).entries, CatalogFrom(dir, i + 1).entries);
    }
  }

  lemma {:induction false} RecordsInOrder(page: Page, block: nat, offs: nat)
    requires offs <= BLOCKSIZE
    ensures Ordered(Records(page, block, offs).entries)
    ensures forall e <- Records(page, block, offs).entries :: e.block == block && e.ofs >= offs
    decreases BLOCKSIZE - offs
  {
    hide RawName, Ordered;
    NoneOrdered();
    if offs < BLOCKSIZE && 0 < page[offs] <= BLOCKSIZE - offs {
      RecordsInOrder(page, block, offs + page[offs]);
      var e := Named(RawName(page, offs), block, offs);
      OneOrdered(e);
      OrderedJoin([e], Records(page, block, offs + page[offs]).entries);
    }
  }

  lemma NoneOrdered()
    ensures Ordered([])
  {}

  lemma OneOrdered(e: Entry)
    ensures Ordered([e])
  {}

  lemma {:induction false} VersionsAreWords(dir: Directory, i: nat)
    requires i <= |dir.blocks|
    ensures forall e <- CatalogFrom(dir, i).entries :: e.version < WORD
    decreases |dir.blocks| - i
  {
    hide Records;
    if i < |dir.blocks| && !dir.interleaved && dir.blocks[i].Block? {
      RecordVersions(dir.blocks[i].page, dir.extent + i, 0);
      VersionsAreWords(dir, i + 1);
    }
  }

  lemma {:induction false} RecordVersions(page: Page, block: nat, offs: nat)
    requires offs <= BLOCKSIZE
    ensures forall e <- Records(page, block, offs).entries :: e.version < WORD
    decreases BLOCKSIZE - offs
  {
    hide RawName;
    if offs < BLOCKSIZE && 0 < page[offs] <= BLOCKSIZE - offs { RecordVersions(page, block, offs + page[offs]); }
  }

  lemma ParsedName(name: CString)
    requires Parse(name).Good?
    ensures var f := Parse(name).wanted.fname; f != "" && ';' !in f && '\0' !in f && |f| < FILENAME_MAX
  {
    hide IndexOf, ReadDigits;
  }

  /** No two entries are asked for at once. */
  lemma OnlyOne(entries: seq<Entry>, w: Wanted, i: nat)
    requires IsChosen(entries, w, i)
    ensures forall j :: IsChosen(entries, w, j) ==> j == i
  {
    forall j: nat | IsChosen(entries, w, j) ensures j == i {
      if w.relative || w.version == 0 {
        if i < j { CountGrows(entries, w.fname, i, j); } else if j < i { CountGrows(entries, w.fname, j, i); }
      }
    }
  }

  lemma {:induction false} CountGrows(entries: seq<Entry>, name: string, i: nat, j: nat)
    requires i < j <= |entries| && entries[i].name == name
    ensures Count(entries[..i], name) < Count(entries[..j], name)
  {
    assert entries[..j][1..] == entries[1..][..j - 1];
    if i > 0 {
      assert entries[..i][1..] == entries[1..][..i - 1];
      CountGrows(entries[1..], name, i - 1, j - 1);
    }
  }

  lemma OneOfItsVersion(entries: seq<Entry>, w: Wanted, i: nat)
    requires NewestFirst(entries, w.fname) && i < |entries| && entries[i].name == w.fname
    requires !w.relative && w.version == entries[i].version > 0
    ensures forall j :: IsChosen(entries, w, j) <==> j == i
  {}
}
