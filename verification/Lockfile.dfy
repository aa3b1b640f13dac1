/**
 `apply_pin`: insert or replace one package's block in a pip-compile lockfile.
 A lockfile is a header and a list of blocks; each block starts at an entry
 line and runs to the next one.
 */
module Lockfile {
  import opened Sequences
  import opened Sorting
  import opened PyText

  // Entry lines and names.

  predicate IsSeparator(c: char) {
    c == '-' || c == '_' || c == '.'
  }

  predicate IsNameChar(c: char) {
    IsAsciiAlnum(c) || IsSeparator(c)
  }

  function Lower(c: char): char {
    if 'A' <= c <= 'Z' then c - 'A' + 'a' else c
  }

  /** PEP 503: runs of separators become one hyphen; ASCII letters in lower case. */
  function Normalize(name: string): string {
    if name == [] then []
    else if !IsSeparator(name[0]) then [Lower(name[0])] + Normalize(name[1..])
    else if |name| > 1 && IsSeparator(name[1]) then Normalize(name[1..])
    else ['-'] + Normalize(name[1..])
  }

  function NameLength(line: string): (n: nat)
    ensures n <= |line|
  {
    if line == [] || !IsNameChar(line[0]) then 0 else 1 + NameLength(line[1..])
  }

  /** `^([A-Za-z0-9][A-Za-z0-9._-]*)==`: a name character is never `=`, so the greedy match is the only one. */
  function EntryName(line: string): Option<string> {
    var n := NameLength(line);
    if line != [] && IsAsciiAlnum(line[0]) && "==" <= line[n..] then Some(Normalize(line[..n])) else None
  }

  predicate IsEntry(line: string) {
    EntryName(line).Some?
  }

  // Header and blocks.

  datatype Block = Block(name: string, lines: seq<string>)

  predicate Plain(lines: seq<string>) {
    forall l :: l in lines ==> !IsEntry(l)
  }

  predicate BlockOk(b: Block) {
    b.lines != [] && EntryName(b.lines[0]) == Some(b.name) && Plain(b.lines[1..])
  }

  /** The lines in front of the first entry. */
  function Header(lines: seq<string>): (h: seq<string>)
    ensures Plain(h)
  {
    if lines == [] || IsEntry(lines[0]) then [] else [lines[0]] + Header(lines[1..])
  }

  /** The lines from the first entry on. */
  function Body(lines: seq<string>): (r: seq<string>)
    ensures |r| <= |lines| && StartsWithEntry(r)
  {
    if lines == [] || IsEntry(lines[0]) then lines else Body(lines[1..])
  }

  predicate StartsWithEntry(lines: seq<string>) {
    lines == [] || IsEntry(lines[0])
  }

  /** An entry line takes the plain lines after it. */
  function FirstBlock(body: seq<string>): (b: Block)
    requires StartsWithEntry(body) && body != []
    ensures BlockOk(b)
  {
    var b := Block(EntryName(body[0]).value, [body[0]] + Header(body[1..]));
    assert b.lines[1..] == Header(body[1..]);
    b
  }

  /** The next entry starts the next block. */
  function BlocksOf(body: seq<string>): (bs: seq<Block>)
    requires StartsWithEntry(body)
    ensures forall b :: b in bs ==> BlockOk(b)
    decreases |body|
  {
    if body == [] then [] else [FirstBlock(body)] + BlocksOf(Body(body[1..]))
  }

  function Blocks(lines: seq<string>): (bs: seq<Block>)
    ensures forall b :: b in bs ==> BlockOk(b)
  {
    BlocksOf(Body(lines))
  }

  function Flatten(bs: seq<Block>): seq<string> {
    if bs == [] then [] else bs[0].lines + Flatten(bs[1..])
  }

  lemma FlattenCons(b: Block, bs: seq<Block>)
    ensures Flatten([b] + bs) == b.lines + Flatten(bs)
  {
    assert ([b] + bs)[1..] == bs;
  }

  lemma {:induction false} HeaderBody(lines: seq<string>)
    ensures lines == Header(lines) + Body(lines)
  {
    if !StartsWithEntry(lines) {
      HeaderBody(lines[1..]);
      assert lines == [lines[0]] + lines[1..];
    }
  }

  lemma FirstBlockAndRest(body: seq<string>)
    requires StartsWithEntry(body) && body != []
    ensures body == FirstBlock(body).lines + Body(body[1..])
  {
    HeaderBody(body[1..]);
    assert body == [body[0]] + body[1..];
    assert [body[0]] + (Header(body[1..]) + Body(body[1..])) == [body[0]] + Header(body[1..]) + Body(body[1..]);
  }

  lemma {:induction false} FlattenBlocksOf(body: seq<string>)
    requires StartsWithEntry(body)
    ensures Flatten(BlocksOf(body)) == body
    decreases |body|
  {
    if body != [] {
      var rest := Body(body[1..]);
      FlattenBlocksOf(rest);
      FlattenCons(FirstBlock(body), BlocksOf(rest));
      FirstBlockAndRest(body);
    }
  }

  /** Nothing is lost: a lockfile is its header and its blocks. */
  lemma {:induction false} HeaderAndBlocks(lines: seq<string>)
    ensures lines == Header(lines) + Flatten(Blocks(lines))
  {
    HeaderBody(lines);
    FlattenBlocksOf(Body(lines));
  }

  lemma {:induction false} CutAtEntry(h: seq<string>, body: seq<string>)
    requires Plain(h) && StartsWithEntry(body)
    ensures Header(h + body) == h && Body(h + body) == body
  {
    if h == [] {
      assert h + body == body;
    } else {
      assert h[0] in h;
      assert (h + body)[1..] == h[1..] + body;
      CutAtEntry(h[1..], body);
    }
  }

  lemma FlattenStart(bs: seq<Block>)
    requires forall b :: b in bs ==> BlockOk(b)
    ensures StartsWithEntry(Flatten(bs))
  {
    if bs != [] {
      assert bs[0] in bs;
    }
  }

  lemma FirstBlockOf(b: Block, rest: seq<string>)
    requires BlockOk(b) && StartsWithEntry(rest)
    ensures StartsWithEntry(b.lines + rest) && BlocksOf(b.lines + rest) == [b] + BlocksOf(rest)
  {
    var body := b.lines + rest;
    CutAtEntry(b.lines[1..], rest);
    assert body[1..] == b.lines[1..] + rest;
    assert b.lines == [b.lines[0]] + b.lines[1..];
  }

  lemma {:induction false} BlocksOfFlatten(bs: seq<Block>)
    requires forall b :: b in bs ==> BlockOk(b)
    ensures StartsWithEntry(Flatten(bs)) && BlocksOf(Flatten(bs)) == bs
  {
    FlattenStart(bs);
    if bs != [] {
      assert bs[0] in bs && bs == [bs[0]] + bs[1..];
      BlocksOfFlatten(bs[1..]);
      FirstBlockOf(bs[0], Flatten(bs[1..]));
    }
  }

  /** Reading back what was assembled from a header and blocks gives that header and those blocks. */
  lemma Assembled(h: seq<string>, bs: seq<Block>)
    requires Plain(h) && forall b :: b in bs ==> BlockOk(b)
    ensures Header(h + Flatten(bs)) == h && Blocks(h + Flatten(bs)) == bs
  {
    BlocksOfFlatten(bs);
    CutAtEntry(h, Flatten(bs));
  }

  // The pin.

  /** `render_block`. */
  function HashLines(hashes: seq<string>): seq<string> {
    if hashes == [] then []
    else ["    --hash=sha256:" + hashes[0] + (if |hashes| == 1 then "" else " \\") + "\n"] + HashLines(hashes[1..])
  }

  function Rendered(package: string, version: string, hashes: seq<string>, via: string): seq<string> {
    [package + "==" + version + " \\\n"] + HashLines(hashes) + ["    # via " + via + "\n"]
  }

  /** The index of the first block of that name, or the number of blocks. */
  function FirstNamed(bs: seq<Block>, name: string): (k: nat)
    ensures k <= |bs|
    ensures k < |bs| ==> bs[k].name == name
    ensures forall i :: 0 <= i < k ==> bs[i].name != name
  {
    if bs == [] || bs[0].name == name then 0 else 1 + FirstNamed(bs[1..], name)
  }

  /** The index of the first block whose name is greater, or the number of blocks. */
  function FirstGreater(bs: seq<Block>, name: string): (k: nat)
    ensures k <= |bs|
    ensures k < |bs| ==> !StrLe(bs[k].name, name)
    ensures forall i :: 0 <= i < k ==> StrLe(bs[i].name, name)
  {
    if bs == [] || !StrLe(bs[0].name, name) then 0 else 1 + FirstGreater(bs[1..], name)
  }

  /** Replace the first block of that name; without one, insert before the first greater name. */
  function Placed(bs: seq<Block>, b: Block): seq<Block> {
    var k := FirstNamed(bs, b.name);
    if k < |bs| then bs[k := b]
    else var i := FirstGreater(bs, b.name); bs[..i] + [b] + bs[i..]
  }

  /** A pin request: what to write and what it needs. */
  datatype Pin = Pin(package: string, version: string, hashes: seq<string>, via: string, requirements: seq<string>, allowMissing: bool)
  {
    function Target(): string {
      Normalize(package)
    }

    function NewBlock(): Block {
      Block(Target(), Rendered(package, version, hashes, via))
    }
  }

  datatype Outcome =
    | Refused
    | Unchanged
    | Updated(previous: string)
    | FailedAfterWrite
    | Inserted(at: nat)

  predicate Names(bs: seq<Block>, name: string) {
    exists i :: 0 <= i < |bs| && bs[i].name == name
  }

  /** A requirement other than the package itself that the lockfile does not pin. */
  predicate Missing(bs: seq<Block>, pin: Pin) {
    exists r :: r in pin.requirements && !Names(bs, r) && r != pin.Target()
  }

  /** What `path.read_text` returns: universal newlines. */
  function Translate(raw: string): string {
    if raw == [] then []
    else if raw[0] != '\r' then [raw[0]] + Translate(raw[1..])
    else ['\n'] + Translate(raw[if |raw| > 1 && raw[1] == '\n' then 2 else 1..])
  }

  function Lines(raw: string): seq<string> {
    SplitKeep(Translate(raw))
  }

  /** The bytes `apply_pin` leaves: the file as it was when refused or already pinned. */
  function After(raw: string, pin: Pin): string {
    var lines := Lines(raw);
    var bs, b := Blocks(lines), pin.NewBlock();
    if Missing(bs, pin) && !pin.allowMissing then raw
    else if Placed(bs, b) == bs then raw
    else Join(Header(lines) + Flatten(Placed(bs, b)))
  }

  // What is written is read back.

  predicate ValidPackage(package: string) {
    package != [] && IsAsciiAlnum(package[0]) && forall c :: c in package ==> IsNameChar(c)
  }

  /** A request whose parts contain no line boundary. */
  predicate OneLineParts(pin: Pin) {
    ValidPackage(pin.package) && OneLine(pin.version) && OneLine(pin.via) && forall h :: h in pin.hashes ==> OneLine(h)
  }

  lemma {:induction false} NameLengthOf(name: string, rest: string)
    requires (forall c :: c in name ==> IsNameChar(c)) && (rest == [] || !IsNameChar(rest[0]))
    ensures NameLength(name + rest) == |name|
  {
    if name == [] {
      assert name + rest == rest;
    } else {
      assert name[0] in name;
      assert (name + rest)[1..] == name[1..] + rest;
      NameLengthOf(name[1..], rest);
    }
  }

  lemma EntryLineName(package: string, rest: string)
    requires ValidPackage(package)
    ensures EntryName(package + "==" + rest) == Some(Normalize(package))
  {
    var line := package + "==" + rest;
    assert line == package + ("==" + rest);
    NameLengthOf(package, "==" + rest);
    assert line[..|package|] == package && line[|package|..] == "==" + rest;
    assert line[0] == package[0];
  }

  lemma IndentedIsPlain(line: string)
    requires line != [] && line[0] == ' '
    ensures !IsEntry(line)
  {
  }

  lemma {:induction false} HashLinesPlain(hashes: seq<string>)
    ensures Plain(HashLines(hashes))
  {
    if hashes != [] {
      HashLinesPlain(hashes[1..]);
      IndentedIsPlain(HashLines(hashes)[0]);
    }
  }

  lemma NewBlockOk(pin: Pin)
    requires ValidPackage(pin.package)
    ensures BlockOk(pin.NewBlock())
  {
    var b := pin.NewBlock();
    var first, last := pin.package + "==" + pin.version + " \\\n", "    # via " + pin.via + "\n";
    assert first == pin.package + "==" + (pin.version + " \\\n");
    EntryLineName(pin.package, pin.version + " \\\n");
    HashLinesPlain(pin.hashes);
    IndentedIsPlain(last);
    assert b.lines[1..] == HashLines(pin.hashes) + [last];
  }

  /** A nonempty line that ends in its only boundary, which is not `\r`. */
  predicate WholeLine(l: string) {
    l != [] && IsBreak(l[|l| - 1]) && OneLine(l[..|l| - 1]) && l[|l| - 1] != '\r'
  }

  predicate WholeLines(lines: seq<string>) {
    forall l :: l in lines ==> WholeLine(l)
  }

  /** Whole lines survive being joined and split again. */
  lemma {:induction false} SplitJoin(lines: seq<string>)
    requires WholeLines(lines)
    ensures SplitKeep(Join(lines)) == lines
  {
    if lines != [] {
      var l := lines[0];
      assert l in lines;
      SplitJoin(lines[1..]);
      assert l == l[..|l| - 1] + [l[|l| - 1]];
      FirstLineOfOne(l[..|l| - 1], l[|l| - 1]);
      assert SplitKeep(l) == [l] by {
        assert l[..|l|] == l && l[|l|..] == [];
      }
      SplitAppend(l, Join(lines[1..]));
      assert lines == [l] + lines[1..];
    }
  }

  /** Splitting a terminated text without carriage returns gives whole lines. */
  lemma {:induction false} SplitGivesWholeLines(text: string)
    requires Terminated(text) && '\r' !in text
    ensures WholeLines(SplitKeep(text))
    decreases |text|
  {
    if text != [] {
      var n := FirstLine(text);
      FirstIsWhole(text);
      SplitGivesWholeLines(text[n..]);
      assert SplitKeep(text) == [text[..n]] + SplitKeep(text[n..]);
    }
  }

  lemma {:induction false} FirstIsWhole(text: string)
    requires text != [] && Terminated(text) && '\r' !in text
    ensures WholeLine(text[..FirstLine(text)])
    decreases |text|
  {
    assert text[0] in text;
    var n := FirstLine(text);
    if |text| > 1 && !IsBreak(text[0]) {
      FirstIsWhole(text[1..]);
      var l, m := text[..n], text[1..][..n - 1];
      assert l == [text[0]] + m;
      assert l[|l| - 1] == m[|m| - 1];
      assert l[..|l| - 1] == [text[0]] + m[..|m| - 1];
    } else {
      assert text[..1] == [text[0]];
    }
  }

  lemma {:induction false} TranslateIdentity(raw: string)
    ensures '\r' !in Translate(raw)
    ensures Translate(raw) == raw <==> '\r' !in raw
    decreases |raw|
  {
    if raw != [] {
      if raw[0] != '\r' {
        TranslateIdentity(raw[1..]);
        assert raw == [raw[0]] + raw[1..];
      } else {
        TranslateIdentity(raw[if |raw| > 1 && raw[1] == '\n' then 2 else 1..]);
      }
    }
  }

  lemma {:induction false} WholeHashLines(hashes: seq<string>)
    requires forall h :: h in hashes ==> OneLine(h)
    ensures WholeLines(HashLines(hashes))
  {
    if hashes != [] {
      assert hashes[0] in hashes;
      var body := "    --hash=sha256:" + hashes[0] + if |hashes| == 1 then "" else " \\";
      assert HashLines(hashes)[0] == body + "\n";
      assert OneLine(body);
      assert (body + "\n")[..|body|] == body;
      WholeHashLines(hashes[1..]);
    }
  }

  lemma WholeBlock(pin: Pin)
    requires OneLineParts(pin)
    ensures WholeLines(pin.NewBlock().lines)
  {
    WholeHashLines(pin.hashes);
    var first, last := pin.package + "==" + pin.version + " \\", "    # via " + pin.via;
    forall c | c in first
      ensures !IsBreak(c)
    {
      assert c in pin.package ==> IsNameChar(c);
    }
    assert OneLine(last);
    assert (first + "\n")[..|first|] == first && (last + "\n")[..|last|] == last;
    assert pin.package + "==" + pin.version + " \\\n" == first + "\n";
  }

  lemma {:induction false} FlattenWhole(bs: seq<Block>)
    ensures WholeLines(Flatten(bs)) <==> forall b :: b in bs ==> WholeLines(b.lines)
  {
    if bs != [] {
      FlattenWhole(bs[1..]);
      assert bs == [bs[0]] + bs[1..];
      forall l
        ensures l in Flatten(bs) <==> l in bs[0].lines || l in Flatten(bs[1..])
      {
      }
    }
  }

  lemma PlacedMembers(bs: seq<Block>, b: Block)
    ensures forall x :: x in Placed(bs, b) ==> x == b || x in bs
  {
  }

  /** The written file reads back as the old header and the placed blocks. */
  lemma WrittenFileReads(raw: string, pin: Pin)
    requires OneLineParts(pin) && Terminated(Translate(raw))
    ensures
      var lines := Lines(raw);
      var placed := Placed(Blocks(lines), pin.NewBlock());
      var written := Lines(Join(Header(lines) + Flatten(placed)));
      && written == Header(lines) + Flatten(placed)
      && Header(written) == Header(lines) && Blocks(written) == placed
  {
    var lines := Lines(raw);
    var bs, b := Blocks(lines), pin.NewBlock();
    var placed := Placed(bs, b);
    var out := Header(lines) + Flatten(placed);
    WrittenWhole(raw, pin);
    NewBlockOk(pin);
    PlacedMembers(bs, b);
    JoinedHasNoReturn(out);
    TranslateIdentity(Join(out));
    SplitJoin(out);
    Assembled(Header(lines), placed);
  }

  lemma {:induction false} JoinedHasNoReturn(lines: seq<string>)
    requires WholeLines(lines)
    ensures '\r' !in Join(lines)
  {
    if lines != [] {
      JoinedHasNoReturn(lines[1..]);
      var l := lines[0];
      assert l in lines;
      assert l == l[..|l| - 1] + [l[|l| - 1]];
    }
  }

  // The promises.

  /** Without its first block of that name, each list is the same; in `after` that block is `b`. */
  ghost predicate OneBlockChanged(before: seq<Block>, after: seq<Block>, b: Block) {
    var k, m := FirstNamed(after, b.name), FirstNamed(before, b.name);
    && k < |after| && after[k] == b
    && after[..k] + after[k + 1..] == if m < |before| then before[..m] + before[m + 1..] else before
  }

  /** Placing a block makes it the first of its name and leaves every other block as and where it was. */
  lemma PlacedKeepsOthers(bs: seq<Block>, b: Block)
    ensures OneBlockChanged(bs, Placed(bs, b), b)
  {
    var placed, k := Placed(bs, b), FirstNamed(bs, b.name);
    if k < |bs| {
      assert FirstNamed(placed, b.name) == k by {
        FirstNamedIs(placed, b.name, k);
      }
    } else {
      var i := FirstGreater(bs, b.name);
      FirstNamedIs(placed, b.name, i);
      assert placed[..i] + placed[i + 1..] == bs;
    }
  }

  lemma {:induction false} FirstNamedIs(bs: seq<Block>, name: string, k: nat)
    requires k < |bs| && bs[k].name == name && forall i :: 0 <= i < k ==> bs[i].name != name
    ensures FirstNamed(bs, name) == k
  {
    if k > 0 {
      FirstNamedIs(bs[1..], name, k - 1);
    }
  }

  lemma PlaceAgain(bs: seq<Block>, b: Block)
    ensures Placed(Placed(bs, b), b) == Placed(bs, b)
  {
    PlacedKeepsOthers(bs, b);
  }

  /** Running the pin again changes nothing, on every newline-terminated lockfile. */
  lemma PinIsIdempotent(raw: string, pin: Pin)
    requires OneLineParts(pin) && Terminated(Translate(raw))
    ensures After(After(raw, pin), pin) == After(raw, pin)
  {
    if After(raw, pin) != raw {
      ChangedFile(raw, pin);
      WrittenFileReads(raw, pin);
      PlaceAgain(Blocks(Lines(raw)), pin.NewBlock());
    }
  }

  lemma PlacedNames(bs: seq<Block>, b: Block, r: string)
    requires r != b.name
    ensures Names(Placed(bs, b), r) <==> Names(bs, r)
  {
    var placed := Placed(bs, b);
    if Names(bs, r) {
      var i :| 0 <= i < |bs| && bs[i].name == r;
      var j := if FirstNamed(bs, b.name) == |bs| && i >= FirstGreater(bs, b.name) then i + 1 else i;
      assert placed[j].name == r;
    }
  }

  lemma StillNothingMissing(bs: seq<Block>, pin: Pin)
    ensures Missing(Placed(bs, pin.NewBlock()), pin) <==> Missing(bs, pin)
  {
    forall r | r != pin.Target()
      ensures Names(Placed(bs, pin.NewBlock()), r) <==> Names(bs, r)
    {
      PlacedNames(bs, pin.NewBlock(), r);
    }
  }

  /** After a change the second run finds the block in place: it is neither refused nor writes again. */
  lemma SecondRunIsUnchanged(raw: string, pin: Pin)
    requires OneLineParts(pin) && Terminated(Translate(raw)) && After(raw, pin) != raw
    ensures var lines := Lines(After(raw, pin)); OutcomeOf(Header(lines), Blocks(lines), pin) == Unchanged
  {
    ChangedFile(raw, pin);
    WrittenFileReads(raw, pin);
    StillNothingMissing(Blocks(Lines(raw)), pin);
    PlaceAgain(Blocks(Lines(raw)), pin.NewBlock());
  }

  lemma ChangedFile(raw: string, pin: Pin)
    requires After(raw, pin) != raw
    ensures After(raw, pin) == Join(Header(Lines(raw)) + Flatten(Placed(Blocks(Lines(raw)), pin.NewBlock())))
  {
  }

  /** After a change: the same header and other blocks, line for line and in order, and the target's first block is the rendered one. */
  lemma PinChangesOneBlock(raw: string, pin: Pin)
    requires OneLineParts(pin) && Terminated(Translate(raw)) && After(raw, pin) != raw
    ensures Header(Lines(After(raw, pin))) == Header(Lines(raw))
    ensures OneBlockChanged(Blocks(Lines(raw)), Blocks(Lines(After(raw, pin))), pin.NewBlock())
  {
    ChangedFile(raw, pin);
    ReadsAs(raw, pin, After(raw, pin));
  }

  lemma ReadsAs(raw: string, pin: Pin, written: string)
    requires OneLineParts(pin) && Terminated(Translate(raw))
    requires written == Join(Header(Lines(raw)) + Flatten(Placed(Blocks(Lines(raw)), pin.NewBlock())))
    ensures Header(Lines(written)) == Header(Lines(raw))
    ensures OneBlockChanged(Blocks(Lines(raw)), Blocks(Lines(written)), pin.NewBlock())
  {
    WrittenFileReads(raw, pin);
    PlacedKeepsOthers(Blocks(Lines(raw)), pin.NewBlock());
  }

  ghost predicate NameSorted(bs: seq<Block>) {
    forall i, j :: 0 <= i < j < |bs| ==> StrLe(bs[i].name, bs[j].name)
  }

  /** Insertion into a name-sorted lockfile leaves it name-sorted, and so does replacement. */
  lemma PinKeepsOrder(bs: seq<Block>, b: Block)
    requires NameSorted(bs)
    ensures NameSorted(Placed(bs, b))
  {
    var placed, i := Placed(bs, b), FirstGreater(bs, b.name);
    if FirstNamed(bs, b.name) == |bs| {
      StrLeIsOrder();
      forall p, q | 0 <= p < q < |placed|
        ensures StrLe(placed[p].name, placed[q].name)
      {
        assert q > i ==> StrLe(bs[i].name, bs[q - 1].name) || i == q - 1;
      }
    }
  }

  /** A name-sorted lockfile is name-sorted after the pin, whatever the pin did. */
  lemma PinKeepsFileSorted(raw: string, pin: Pin)
    requires OneLineParts(pin) && Terminated(Translate(raw)) && NameSorted(Blocks(Lines(raw)))
    ensures NameSorted(Blocks(Lines(After(raw, pin))))
  {
    if After(raw, pin) != raw {
      ChangedFile(raw, pin);
      SortedAsWritten(raw, pin, After(raw, pin));
    }
  }

  lemma SortedAsWritten(raw: string, pin: Pin, written: string)
    requires OneLineParts(pin) && Terminated(Translate(raw)) && NameSorted(Blocks(Lines(raw)))
    requires written == Join(Header(Lines(raw)) + Flatten(Placed(Blocks(Lines(raw)), pin.NewBlock())))
    ensures NameSorted(Blocks(Lines(written)))
  {
    WrittenFileReads(raw, pin);
    PinKeepsOrder(Blocks(Lines(raw)), pin.NewBlock());
  }

  lemma {:induction false} JoinAppend(a: seq<string>, b: seq<string>)
    ensures Join(a + b) == Join(a) + Join(b)
  {
    if a == [] {
      assert a + b == b;
    } else {
      assert (a + b)[1..] == a[1..] + b;
      JoinAppend(a[1..], b);
    }
  }

  lemma {:induction false} FlattenAppend(a: seq<Block>, b: seq<Block>)
    ensures Flatten(a + b) == Flatten(a) + Flatten(b)
  {
    if a == [] {
      assert a + b == b;
    } else {
      assert (a + b)[1..] == a[1..] + b;
      FlattenAppend(a[1..], b);
    }
  }

  /** How a list of blocks takes a new one: what stays on the left, what goes, what stays on the right. */
  lemma PlacedSplit(bs: seq<Block>, b: Block) returns (left: seq<Block>, gone: seq<Block>, right: seq<Block>)
    ensures bs == left + gone + right && Placed(bs, b) == left + [b] + right
    ensures gone == if FirstNamed(bs, b.name) < |bs| then [bs[FirstNamed(bs, b.name)]] else []
  {
    var k := FirstNamed(bs, b.name);
    if k < |bs| {
      left, gone, right := bs[..k], [bs[k]], bs[k + 1..];
    } else {
      var i := FirstGreater(bs, b.name);
      left, gone, right := bs[..i], [], bs[i..];
    }
  }

  /** A cut of the text that was read is a cut of the bytes. */
  lemma {:induction false} TranslateCut(raw: string, a: string, b: string) returns (p: string, q: string)
    requires Translate(raw) == a + b
    ensures raw == p + q && Translate(p) == a && Translate(q) == b
    decreases |a|
  {
    if a == [] {
      assert a + b == b;
      p, q := [], raw;
    } else {
      var n := if raw[0] == '\r' && |raw| > 1 && raw[1] == '\n' then 2 else 1;
      assert Translate(raw[n..]) == Translate(raw)[1..] == a[1..] + b;
      p, q := TranslateCut(raw[n..], a[1..], b);
      FirstUnit(raw, p, q, n);
      p := raw[..n] + p;
      assert a == [a[0]] + a[1..];
    }
  }

  lemma FirstUnit(raw: string, p: string, q: string, n: nat)
    requires raw != [] && n == if raw[0] == '\r' && |raw| > 1 && raw[1] == '\n' then 2 else 1
    requires raw[n..] == p + q
    ensures raw == (raw[..n] + p) + q
    ensures Translate(raw[..n] + p) == [Translate(raw)[0]] + Translate(p)
  {
    assert raw == raw[..n] + raw[n..];
    assert (raw[..n] + p)[n..] == p;
    assert p != [] ==> p[0] == raw[n];
  }

  lemma ThreeWayCut(raw: string, a: string, b: string, c: string) returns (p: string, q: string, r: string)
    requires Translate(raw) == a + b + c
    ensures raw == p + q + r && Translate(p) == a && Translate(q) == b && Translate(r) == c
  {
    var rest;
    assert a + b + c == a + (b + c);
    p, rest := TranslateCut(raw, a, b + c);
    q, r := TranslateCut(rest, b, c);
  }

  // An entry ends with its indented lines; `find_entries` lets it run on to the next entry.

  predicate Indented(line: string) {
    line != [] && (line[0] == ' ' || line[0] == '\t')
  }

  function IndentedRun(lines: seq<string>): (n: nat)
    ensures n <= |lines|
    ensures forall i :: 0 <= i < n ==> Indented(lines[i])
    ensures n < |lines| ==> !Indented(lines[n])
  {
    if lines == [] || !Indented(lines[0]) then 0 else 1 + IndentedRun(lines[1..])
  }

  /** The entry line and the indented lines under it. */
  function Own(b: Block): seq<string>
    requires b.lines != []
  {
    [b.lines[0]] + b.lines[1..][..IndentedRun(b.lines[1..])]
  }

  /** What else lies in front of the next entry: from the first line on that is not indented. */
  function Tail(b: Block): seq<string>
    requires b.lines != []
  {
    b.lines[1..][IndentedRun(b.lines[1..])..]
  }

  lemma OwnAndTail(b: Block)
    requires b.lines != []
    ensures b.lines == Own(b) + Tail(b) && Join(b.lines) == Join(Own(b)) + Join(Tail(b))
  {
    JoinAppend(Own(b), Tail(b));
  }

  /** The block that a pin replaces, when there is one. */
  function TargetBlock(raw: string, pin: Pin): (b: Option<Block>)
    ensures b.Some? ==> b.value.lines != [] && b.value.name == pin.Target() && b.value in Blocks(Lines(raw))
  {
    var bs := Blocks(Lines(raw));
    var k := FirstNamed(bs, pin.Target());
    if k < |bs| then
      assert BlockOk(bs[k]);
      Some(bs[k])
    else None
  }

  /** The text that goes: the target's own lines, and what follows them up to the next entry. */
  function OwnText(target: Option<Block>): string
    requires target.Some? ==> target.value.lines != []
  {
    if target.Some? then Join(Own(target.value)) else []
  }

  function TailText(target: Option<Block>): string
    requires target.Some? ==> target.value.lines != []
  {
    if target.Some? then Join(Tail(target.value)) else []
  }

  /**
   A changed file is the old one with the target's own lines exchanged for the new block, the lines after them
   up to the next entry left out, and universal newlines in the rest. So the bytes outside the target's own
   lines are left alone exactly when no line follows those before the next entry and no carriage return is
   among the other bytes.
   */
  lemma OtherBytesStay(raw: string, pin: Pin) returns (prefix: string, replaced: string, tail: string, suffix: string)
    requires OneLineParts(pin) && After(raw, pin) != raw
    ensures raw == prefix + replaced + tail + suffix
    ensures Translate(replaced) == OwnText(TargetBlock(raw, pin)) && Translate(tail) == TailText(TargetBlock(raw, pin))
    ensures After(raw, pin) == Translate(prefix) + Join(pin.NewBlock().lines) + Translate(suffix)
    ensures After(raw, pin) == prefix + Join(pin.NewBlock().lines) + tail + suffix
      <==> '\r' !in prefix && '\r' !in suffix && tail == []
    ensures tail == [] <==> TargetBlock(raw, pin).None? || Tail(TargetBlock(raw, pin).value) == []
  {
    var a, c := ChangedText(raw, pin);
    var target, block := TargetBlock(raw, pin), Join(pin.NewBlock().lines);
    prefix, replaced, tail, suffix := FourWayCut(raw, a, OwnText(target), TailText(target), c);
    ReturnsAreRewritten(raw, pin);
    SameAround(prefix, block, tail, suffix, After(raw, pin));
    TailIsText(raw, target, tail);
  }

  lemma FourWayCut(raw: string, a: string, b: string, c: string, d: string) returns (p: string, q: string, r: string, s: string)
    requires Translate(raw) == a + (b + c) + d
    ensures raw == p + q + r + s
    ensures Translate(p) == a && Translate(q) == b && Translate(r) == c && Translate(s) == d
  {
    var middle;
    p, middle, s := ThreeWayCut(raw, a, b + c, d);
    q, r := TranslateCut(middle, b, c);
    assert p + (q + r) + s == p + q + r + s;
  }

  lemma SameAround(prefix: string, block: string, tail: string, suffix: string, after: string)
    requires after == Translate(prefix) + block + Translate(suffix) && '\r' !in after
    ensures after == prefix + block + tail + suffix <==> '\r' !in prefix && '\r' !in suffix && tail == []
  {
    TranslateIdentity(prefix);
    TranslateIdentity(suffix);
    if after == prefix + block + tail + suffix {
      Middle(prefix, block, tail, suffix);
      NoneOnEitherSide(prefix, block + tail, suffix, after);
      NothingBetween(prefix, block, tail, suffix);
    }
    NothingAdded(prefix, block, suffix);
  }

  lemma Middle(prefix: string, block: string, tail: string, suffix: string)
    ensures prefix + block + tail + suffix == prefix + (block + tail) + suffix
  {
  }

  lemma NothingBetween(prefix: string, block: string, tail: string, suffix: string)
    ensures prefix + block + suffix == prefix + block + tail + suffix ==> tail == []
  {
    assert |prefix + block + suffix| == |prefix| + |block| + |suffix|;
  }

  lemma NothingAdded(prefix: string, block: string, suffix: string)
    ensures prefix + block + [] + suffix == prefix + block + suffix
  {
    assert prefix + block + [] == prefix + block;
  }

  lemma NoneOnEitherSide(prefix: string, middle: string, suffix: string, all: string)
    requires all == prefix + middle + suffix && '\r' !in all
    ensures '\r' !in prefix && '\r' !in suffix
  {
    forall c | c in prefix || c in suffix
      ensures c != '\r'
    {
      assert c in all;
    }
  }

  lemma TailIsText(raw: string, target: Option<Block>, tail: string)
    requires target.Some? ==> target.value.lines != [] && target.value in Blocks(Lines(raw))
    requires Translate(tail) == TailText(target)
    ensures tail == [] <==> target.None? || Tail(target.value) == []
  {
    if target.Some? {
      BlockLinesAreNotEmpty(raw, target.value);
      TailHasText(target.value);
    }
  }

  lemma {:induction false} LinesAreNotEmpty(text: string)
    ensures forall l :: l in SplitKeep(text) ==> l != []
  {
    if text != [] {
      LinesAreNotEmpty(text[FirstLine(text)..]);
    }
  }

  lemma {:induction false} BlockLines(bs: seq<Block>, b: Block)
    requires b in bs
    ensures forall l :: l in b.lines ==> l in Flatten(bs)
  {
    if b != bs[0] {
      BlockLines(bs[1..], b);
    }
  }

  lemma JoinHasText(lines: seq<string>)
    requires lines != [] && lines[0] != []
    ensures Join(lines) != []
  {
  }

  lemma BlockLinesAreNotEmpty(raw: string, b: Block)
    requires b in Blocks(Lines(raw))
    ensures forall l :: l in b.lines ==> l != []
  {
    LinesAreNotEmpty(Translate(raw));
    HeaderAndBlocks(Lines(raw));
    BlockLines(Blocks(Lines(raw)), b);
    forall l | l in b.lines
      ensures l != []
    {
      assert l in Header(Lines(raw)) + Flatten(Blocks(Lines(raw)));
    }
  }

  /** A tail of any lines is some text. */
  lemma TailHasText(b: Block)
    requires b.lines != [] && forall l :: l in b.lines ==> l != []
    ensures Join(Tail(b)) == [] <==> Tail(b) == []
  {
    if Tail(b) != [] {
      OwnAndTail(b);
      assert Tail(b)[0] in Own(b) + Tail(b);
      JoinHasText(Tail(b));
    }
  }

  /** What was read and what is written, around the block that changes. */
  lemma ChangedText(raw: string, pin: Pin) returns (a: string, c: string)
    requires After(raw, pin) != raw
    ensures Translate(raw) == a + (OwnText(TargetBlock(raw, pin)) + TailText(TargetBlock(raw, pin))) + c
    ensures After(raw, pin) == a + Join(pin.NewBlock().lines) + c
  {
    var lines, b, left, gone, right := Lines(raw), pin.NewBlock(), [], [], [];
    ChangedFile(raw, pin);
    JoinSplit(Translate(raw));
    HeaderAndBlocks(lines);
    left, gone, right := PlacedSplit(Blocks(lines), b);
    a, c := Join(Header(lines) + Flatten(left)), Join(Flatten(right));
    ThreeParts(Header(lines), left, gone, right);
    ThreeParts(Header(lines), left, [b], right);
    OneBlock(b);
    GoneText(raw, pin, gone);
  }

  lemma GoneText(raw: string, pin: Pin, gone: seq<Block>)
    requires var bs := Blocks(Lines(raw)); var k := FirstNamed(bs, pin.Target());
      gone == if k < |bs| then [bs[k]] else []
    ensures Join(Flatten(gone)) == OwnText(TargetBlock(raw, pin)) + TailText(TargetBlock(raw, pin))
  {
    var target := TargetBlock(raw, pin);
    if target.Some? {
      OneBlock(target.value);
      OwnAndTail(target.value);
    }
  }

  // A line that is neither an entry nor indented, after the target's entry: the pin deletes it.

  const TARGET_LINE := "a==1 \\\n"
  const EXTRA_LINE := "b[x]==2 \\\n"

  lemma TwoLines(first: string, second: string)
    requires OneLine(first) && OneLine(second)
    ensures Lines(first + "\n" + (second + "\n")) == [first + "\n", second + "\n"]
  {
    var text := first + "\n" + (second + "\n");
    assert '\r' !in text by {
      assert IsBreak('\r');
    }
    TranslateIdentity(text);
    SplitOneLine(first);
    SplitOneLine(second);
    SplitAppend(first + "\n", second + "\n");
  }

  lemma TargetLineIsEntry()
    ensures EntryName(TARGET_LINE) == Some("a") && Normalize("a") == "a"
  {
    assert TARGET_LINE == "a" + "==" + "1 \\\n";
    EntryLineName("a", "1 \\\n");
    assert Normalize("a"[1..]) == [];
    assert Normalize("a") == "a";
  }

  lemma ExtraLineIsPlain()
    ensures EntryName(EXTRA_LINE) == None && !Indented(EXTRA_LINE)
  {
    assert EXTRA_LINE == "b" + "[x]==2 \\\n";
    NameLengthOf("b", "[x]==2 \\\n");
    assert EXTRA_LINE[1..][0] == '[';
  }

  lemma ExampleLines()
    ensures Lines(TARGET_LINE + EXTRA_LINE) == [TARGET_LINE, EXTRA_LINE]
  {
    assert TARGET_LINE == "a==1 \\" + "\n" && EXTRA_LINE == "b[x]==2 \\" + "\n";
    TwoLines("a==1 \\", "b[x]==2 \\");
  }

  lemma ExampleBlocks()
    ensures var b := Block("a", [TARGET_LINE, EXTRA_LINE]);
      BlockOk(b) && Blocks(b.lines) == [b] && Header(b.lines) == [] && Tail(b) == [EXTRA_LINE]
  {
    var b := Block("a", [TARGET_LINE, EXTRA_LINE]);
    TargetLineIsEntry();
    ExtraLineIsPlain();
    assert b.lines[1..] == [EXTRA_LINE];
    OneBlock(b);
    assert [] + b.lines == b.lines;
    Assembled([], [b]);
  }

  /** Whatever version "a" is pinned to, the file left is the new block alone. */
  lemma ExtraLineIsDeleted(pin: Pin)
    requires pin.package == "a" && (pin.requirements == [] || pin.allowMissing)
    ensures After(TARGET_LINE + EXTRA_LINE, pin) == Join(pin.NewBlock().lines)
    ensures TargetBlock(TARGET_LINE + EXTRA_LINE, pin) == Some(Block("a", [TARGET_LINE, EXTRA_LINE]))
    ensures Tail(Block("a", [TARGET_LINE, EXTRA_LINE])) == [EXTRA_LINE]
  {
    var b := Block("a", [TARGET_LINE, EXTRA_LINE]);
    ExampleLines();
    ExampleBlocks();
    TargetLineIsEntry();
    NewBlockSecondLine(pin);
    OnlyBlockReplaced(TARGET_LINE + EXTRA_LINE, b, pin);
  }

  lemma OnlyBlockReplaced(raw: string, b: Block, pin: Pin)
    requires Blocks(Lines(raw)) == [b] && Header(Lines(raw)) == [] && b.name == pin.Target() && b != pin.NewBlock()
    requires pin.requirements == [] || pin.allowMissing
    ensures After(raw, pin) == Join(pin.NewBlock().lines) && TargetBlock(raw, pin) == Some(b)
  {
    assert FirstNamed([b], pin.Target()) == 0;
    assert Placed([b], pin.NewBlock()) == [pin.NewBlock()];
    OneBlock(pin.NewBlock());
    assert [] + pin.NewBlock().lines == pin.NewBlock().lines;
  }

  lemma NewBlockSecondLine(pin: Pin)
    ensures pin.NewBlock().lines != [TARGET_LINE, EXTRA_LINE]
  {
    var lines := pin.NewBlock().lines;
    assert |lines| >= 2 && Indented(lines[1]);
    ExtraLineIsPlain();
  }

  lemma OneBlock(b: Block)
    ensures Flatten([b]) == b.lines
  {
    assert [b] == [b] + [];
    FlattenCons(b, []);
  }

  lemma JoinParts(h: seq<string>, a: seq<string>, b: seq<string>, c: seq<string>)
    ensures Join(h + (a + b + c)) == Join(h + a) + Join(b) + Join(c)
  {
    Regroup(h, a, b, c);
    JoinAppend(h + a + b, c);
    JoinAppend(h + a, b);
  }

  lemma FlattenParts(left: seq<Block>, mid: seq<Block>, right: seq<Block>)
    ensures Flatten(left + mid + right) == Flatten(left) + Flatten(mid) + Flatten(right)
  {
    FlattenAppend(left + mid, right);
    FlattenAppend(left, mid);
  }

  lemma ThreeParts(h: seq<string>, left: seq<Block>, mid: seq<Block>, right: seq<Block>)
    ensures Join(h + Flatten(left + mid + right)) == Join(h + Flatten(left)) + Join(Flatten(mid)) + Join(Flatten(right))
  {
    FlattenParts(left, mid, right);
    JoinParts(h, Flatten(left), Flatten(mid), Flatten(right));
  }

  /** Carriage returns are not among the bytes left alone: a changed file has none. */
  lemma ReturnsAreRewritten(raw: string, pin: Pin)
    requires OneLineParts(pin) && After(raw, pin) != raw
    ensures '\r' !in After(raw, pin)
  {
    var a, c := ChangedText(raw, pin);
    TranslateIdentity(raw);
    WholeBlock(pin);
    JoinedHasNoReturn(pin.NewBlock().lines);
    forall x | x in a || x in c
      ensures x != '\r'
    {
      assert x in Translate(raw);
    }
  }

  lemma WrittenWhole(raw: string, pin: Pin)
    requires OneLineParts(pin) && Terminated(Translate(raw))
    ensures WholeLines(Header(Lines(raw)) + Flatten(Placed(Blocks(Lines(raw)), pin.NewBlock())))
  {
    var lines := Lines(raw);
    TranslateIdentity(raw);
    SplitGivesWholeLines(Translate(raw));
    HeaderAndBlocks(lines);
    FlattenWhole(Blocks(lines));
    WholeBlock(pin);
    PlacedMembers(Blocks(lines), pin.NewBlock());
    FlattenWhole(Placed(Blocks(lines), pin.NewBlock()));
  }

  // The loops, over line indices.

  /** The entry lines with their normalized names and indices. */
  function Starts(lines: seq<string>): seq<(string, nat)> {
    if lines == [] then []
    else
      var n := |lines| - 1;
      var name := EntryName(lines[n]);
      Starts(lines[..n]) + if name.Some? then [(name.value, n)] else []
  }

  lemma {:induction false} StartsAfterPlain(a: seq<string>, p: seq<string>)
    requires Plain(p)
    ensures Starts(a + p) == Starts(a)
  {
    if p == [] {
      assert a + p == a;
    } else {
      var front := p[..|p| - 1];
      assert p[|p| - 1] in p;
      assert (a + p)[..|a + p| - 1] == a + front;
      StartsAfterPlain(a, front);
    }
  }

  lemma StartsNext(a: seq<string>, line: string)
    ensures Starts(a + [line]) == Starts(a) + (if EntryName(line).Some? then [(EntryName(line).value, |a|)] else [])
  {
    assert (a + [line])[..|a|] == a;
  }

  lemma HeadAndRest<T>(a: seq<T>, s: seq<T>)
    requires s != []
    ensures a + s == (a + [s[0]]) + s[1..]
  {
  }

  lemma StartsAfterBlock(a: seq<string>, b: Block)
    requires BlockOk(b)
    ensures Starts(a + b.lines) == Starts(a) + [(b.name, |a|)]
  {
    HeadAndRest(a, b.lines);
    StartsNext(a, b.lines[0]);
    StartsAfterPlain(a + [b.lines[0]], b.lines[1..]);
  }

  /** Where block `k` starts. */
  function Offset(h: seq<string>, bs: seq<Block>, k: nat): nat
    requires k <= |bs|
  {
    |h| + |Flatten(bs[..k])|
  }

  function Offsets(h: seq<string>, bs: seq<Block>): seq<(string, nat)> {
    seq(|bs|, k requires 0 <= k < |bs| => (bs[k].name, Offset(h, bs, k)))
  }

  /** The entry lines of a lockfile are where its blocks start. */
  lemma {:induction false} StartsAreOffsets(h: seq<string>, bs: seq<Block>)
    requires Plain(h) && forall b :: b in bs ==> BlockOk(b)
    ensures Starts(h + Flatten(bs)) == Offsets(h, bs)
    decreases |bs|
  {
    if bs == [] {
      StartsAfterPlain([], h);
      assert [] + h == h && h + Flatten(bs) == h;
    } else {
      var front, last := bs[..|bs| - 1], bs[|bs| - 1];
      assert bs == front + [last] && last in bs;
      StartsAreOffsets(h, front);
      FlattenAppend(front, [last]);
      OneBlock(last);
      assert h + Flatten(bs) == h + Flatten(front) + last.lines;
      StartsAfterBlock(h + Flatten(front), last);
      forall k | 0 <= k < |front|
        ensures Offset(h, front, k) == Offset(h, bs, k)
      {
        assert front[..k] == bs[..k];
      }
      assert Offsets(h, bs) == Offsets(h, front) + [(last.name, |h + Flatten(front)|)];
    }
  }

  /** `find_entries`: name, start and exclusive end of every entry. */
  ghost predicate EntriesExact(h: seq<string>, bs: seq<Block>, entries: seq<(string, nat, nat)>) {
    && |entries| == |bs|
    && forall k {:trigger entries[k]} {:trigger bs[k]} ::
         0 <= k < |bs| ==> entries[k] == (bs[k].name, Offset(h, bs, k), Offset(h, bs, k + 1))
  }

  method FindStarts(lines: seq<string>) returns (starts: seq<(string, nat)>)
    ensures starts == Starts(lines)
  {
    starts := [];
    for i := 0 to |lines|
      invariant starts == Starts(lines[..i])
    {
      assert lines[..i + 1][..i] == lines[..i];
      var name := EntryName(lines[i]);
      if name.Some? {
        starts := starts + [(name.value, i)];
      }
    }
    assert lines[..|lines|] == lines;
  }

  /** Every entry ends where the next starts, the last one at the end of the file. */
  method PairEnds(starts: seq<(string, nat)>, total: nat, ghost h: seq<string>, ghost bs: seq<Block>) returns (entries: seq<(string, nat, nat)>)
    requires starts == Offsets(h, bs) && Offset(h, bs, |bs|) == total
    ensures EntriesExact(h, bs, entries)
  {
    entries := [];
    for pos := 0 to |starts|
      invariant |entries| == pos
      invariant forall k :: 0 <= k < pos ==> entries[k] == (bs[k].name, Offset(h, bs, k), Offset(h, bs, k + 1))
    {
      var end := if pos + 1 < |starts| then starts[pos + 1].1 else total;
      entries := entries + [(starts[pos].0, starts[pos].1, end)];
    }
  }

  lemma LastOffset(h: seq<string>, bs: seq<Block>)
    ensures Offset(h, bs, |bs|) == |h + Flatten(bs)|
  {
    assert bs[..|bs|] == bs;
  }

  method FindEntries(lines: seq<string>) returns (entries: seq<(string, nat, nat)>)
    ensures EntriesExact(Header(lines), Blocks(lines), entries)
  {
    var starts := FindStarts(lines);
    HeaderAndBlocks(lines);
    StartsAreOffsets(Header(lines), Blocks(lines));
    LastOffset(Header(lines), Blocks(lines));
    entries := PairEnds(starts, |lines|, Header(lines), Blocks(lines));
  }

  method RenderBlock(pin: Pin) returns (block: seq<string>)
    ensures block == pin.NewBlock().lines && RendersTo(pin, block)
  {
    RenderedIs(pin);
    block := [pin.package + "==" + pin.version + " \\\n"];
    for i := 0 to |pin.hashes|
      invariant block + HashLines(pin.hashes[i..]) == [pin.package + "==" + pin.version + " \\\n"] + HashLines(pin.hashes)
    {
      var line := "    --hash=sha256:" + pin.hashes[i] + (if i == |pin.hashes| - 1 then "" else " \\") + "\n";
      assert pin.hashes[i..][1..] == pin.hashes[i + 1..];
      assert HashLines(pin.hashes[i..]) == [line] + HashLines(pin.hashes[i + 1..]);
      block := block + [line];
    }
    block := block + ["    # via " + pin.via + "\n"];
  }

  lemma FlattenSplit(bs: seq<Block>, k: nat)
    requires k <= |bs|
    ensures Flatten(bs) == Flatten(bs[..k]) + Flatten(bs[k..])
  {
    assert bs == bs[..k] + bs[k..];
    FlattenAppend(bs[..k], bs[k..]);
  }

  lemma FlattenNext(bs: seq<Block>, k: nat)
    requires k < |bs|
    ensures Flatten(bs[..k + 1]) == Flatten(bs[..k]) + bs[k].lines
  {
    assert bs[..k + 1] == bs[..k] + [bs[k]];
    FlattenAppend(bs[..k], [bs[k]]);
    OneBlock(bs[k]);
  }

  lemma CutJoined<T>(h: seq<T>, a: seq<T>, b: seq<T>)
    ensures (h + (a + b))[..|h| + |a|] == h + a && (h + (a + b))[|h| + |a|..] == b
  {
  }

  lemma Between<T>(s: seq<T>, h: seq<T>, a: seq<T>, m: seq<T>, b: seq<T>, from: nat, to: nat)
    requires s == h + ((a + m) + b) && from == |h| + |a| && to == |h| + |a + m|
    ensures from <= to <= |s| && s[from..to] == m
  {
  }

  /** Cut where block `k` starts: what is before, and the blocks from `k` on. */
  lemma SliceAt(h: seq<string>, bs: seq<Block>, lines: seq<string>, k: nat)
    requires lines == h + Flatten(bs) && k <= |bs|
    ensures |h| <= Offset(h, bs, k) <= |lines|
    ensures lines[..Offset(h, bs, k)] == h + Flatten(bs[..k])
    ensures lines[Offset(h, bs, k)..] == Flatten(bs[k..])
  {
    FlattenSplit(bs, k);
    CutJoined(h, Flatten(bs[..k]), Flatten(bs[k..]));
  }

  /** Cut around block `k`. */
  lemma BlockCut(h: seq<string>, bs: seq<Block>, lines: seq<string>, k: nat) returns (a: seq<string>, c: seq<string>)
    requires lines == h + Flatten(bs) && k < |bs|
    ensures lines == h + ((a + bs[k].lines) + c)
    ensures Offset(h, bs, k) == |h| + |a| && Offset(h, bs, k + 1) == |h| + |a + bs[k].lines|
  {
    FlattenSplit(bs, k + 1);
    FlattenNext(bs, k);
    a, c := Flatten(bs[..k]), Flatten(bs[k + 1..]);
  }

  lemma BlockAt(h: seq<string>, bs: seq<Block>, lines: seq<string>, k: nat)
    requires lines == h + Flatten(bs) && k < |bs|
    ensures Offset(h, bs, k) <= Offset(h, bs, k + 1) <= |lines|
    ensures lines[Offset(h, bs, k)..Offset(h, bs, k + 1)] == bs[k].lines
  {
    var a, c := BlockCut(h, bs, lines, k);
    Between(lines, h, a, bs[k].lines, c, Offset(h, bs, k), Offset(h, bs, k + 1));
  }

  lemma UpdateIsSplice<T>(s: seq<T>, k: nat, x: T)
    requires k < |s|
    ensures s[k := x] == s[..k] + [x] + s[k + 1..]
  {
  }

  /** The version printed for the replaced entry: the first word after `==`, if there is one. */
  function OldVersion(line: string): Option<string> {
    var n := NameLength(line);
    if "==" <= line[n..] then FirstWord(line[n + 2..]) else None
  }

  function FirstWord(s: string): Option<string> {
    if s == [] then None
    else if IsSpace(s[0]) then FirstWord(s[1..])
    else Some(TakeWord(s))
  }

  function TakeWord(s: string): string {
    if s == [] || IsSpace(s[0]) then [] else [s[0]] + TakeWord(s[1..])
  }

  /** The unpinned requirements, in their order. */
  ghost predicate MissingAre(missing: seq<string>, requirements: seq<string>, present: set<string>, target: string) {
    Picks(missing, requirements, set k | 0 <= k < |requirements| && requirements[k] !in present && requirements[k] != target)
  }

  lemma MissingOne(missing: seq<string>, requirements: seq<string>, present: set<string>, target: string, dep: string)
    requires MissingAre(missing, requirements, present, target)
    ensures MissingAre(if dep !in present && dep != target then missing + [dep] else missing, requirements + [dep], present, target)
  {
    var more := requirements + [dep];
    var keep := set k | 0 <= k < |requirements| && requirements[k] !in present && requirements[k] != target;
    PicksMore(missing, requirements, keep, dep);
    assert forall k :: 0 <= k < |requirements| ==> more[k] == requirements[k];
    assert (set k | 0 <= k < |more| && more[k] !in present && more[k] != target) ==
      keep + if dep !in present && dep != target then {|requirements|} else {};
  }

  /** `missing`: the requirements not among the names present, other than the package itself. */
  method FindMissing(present: set<string>, pin: Pin) returns (missing: seq<string>)
    ensures MissingAre(missing, pin.requirements, present, pin.Target())
    ensures forall r :: r in missing <==> r in pin.requirements && r !in present && r != pin.Target()
  {
    missing := [];
    PicksNone(pin.requirements[..0]);
    for i := 0 to |pin.requirements|
      invariant MissingAre(missing, pin.requirements[..i], present, pin.Target())
      invariant forall r :: r in missing <==> r in pin.requirements[..i] && r !in present && r != pin.Target()
    {
      var dep := pin.requirements[i];
      MissingOne(missing, pin.requirements[..i], present, pin.Target(), dep);
      assert pin.requirements[..i + 1] == pin.requirements[..i] + [dep];
      if dep !in present && dep != pin.Target() {
        missing := missing + [dep];
      }
    }
    assert pin.requirements[..|pin.requirements|] == pin.requirements;
  }

  lemma MissingExact(h: seq<string>, bs: seq<Block>, entries: seq<(string, nat, nat)>, pin: Pin, missing: seq<string>)
    requires EntriesExact(h, bs, entries)
    requires forall r :: r in missing <==>
      r in pin.requirements && r !in (set i | 0 <= i < |entries| :: entries[i].0) && r != pin.Target()
    ensures missing != [] <==> Missing(bs, pin)
  {
    forall r
      ensures Names(bs, r) <==> r in (set i | 0 <= i < |entries| :: entries[i].0)
    {
      if Names(bs, r) {
        var i :| 0 <= i < |bs| && bs[i].name == r;
        assert entries[i].0 == r;
      }
    }
    if missing != [] {
      assert missing[0] in missing;
    }
  }

  function HeadLine(b: Block): string {
    if b.lines == [] then [] else b.lines[0]
  }

  /** What `apply_pin` reports for the blocks it finds. */
  function OutcomeOf(h: seq<string>, bs: seq<Block>, pin: Pin): Outcome {
    var b := pin.NewBlock();
    var k := FirstNamed(bs, b.name);
    if Missing(bs, pin) && !pin.allowMissing then Refused
    else if k == |bs| then Inserted(Offset(h, bs, FirstGreater(bs, b.name)) + 1)
    else if bs[k] == b then Unchanged
    else match OldVersion(HeadLine(bs[k])) case Some(v) => Updated(v) case None => FailedAfterWrite
  }

  // What a pin does, told without the functions that compute it.

  ghost predicate Separator(c: char) {
    c == '-' || c == '_' || c == '.'
  }

  ghost predicate Lowered(c: char, d: char) {
    if 'A' <= c <= 'Z' then d as int == c as int + 32 else d == c
  }

  /** A run of separators becomes one hyphen. */
  lemma {:induction false} NormalizeRun(run: string)
    requires run != [] && forall i :: 0 <= i < |run| ==> Separator(run[i])
    ensures Normalize(run) == "-"
  {
    if |run| > 1 {
      NormalizeRun(run[1..]);
    } else {
      assert run[1..] == [];
    }
  }

  /** A word without separators is put in lower case. */
  lemma {:induction false} NormalizeWord(word: string)
    requires forall i :: 0 <= i < |word| ==> !Separator(word[i])
    ensures |Normalize(word)| == |word| && forall i :: 0 <= i < |word| ==> Lowered(word[i], Normalize(word)[i])
  {
    if word != [] {
      NormalizeWord(word[1..]);
    }
  }

  lemma NormalizeHead(c: char, rest: string)
    ensures Normalize([c] + rest) ==
      if !IsSeparator(c) then [Lower(c)] + Normalize(rest)
      else if rest != [] && IsSeparator(rest[0]) then Normalize(rest)
      else ['-'] + Normalize(rest)
  {
    assert ([c] + rest)[1..] == rest;
  }

  lemma Glue(h: string, x: string, y: string)
    ensures h + (x + y) == (h + x) + y
  {
  }

  /** What one more character in front adds. */
  ghost function HeadOf(c: char, rest: string): string {
    if !IsSeparator(c) then [Lower(c)] else if rest != [] && IsSeparator(rest[0]) then [] else ['-']
  }

  lemma NormalizeFront(c: char, rest: string)
    ensures Normalize([c] + rest) == HeadOf(c, rest) + Normalize(rest)
  {
    NormalizeHead(c, rest);
    assert [] + Normalize(rest) == Normalize(rest);
  }

  lemma SameHead(c: char, rest: string, b: string)
    requires rest == [] ==> b == [] || !Separator(c) || !Separator(b[0])
    ensures HeadOf(c, rest + b) == HeadOf(c, rest)
  {
    assert rest != [] ==> (rest + b)[0] == rest[0];
    assert rest == [] ==> rest + b == b;
  }

  lemma NormalizeMore(c: char, rest: string, b: string, whole: string)
    requires Normalize(rest + b) == Normalize(rest) + Normalize(b) && whole == [c] + (rest + b)
    requires rest == [] ==> b == [] || !Separator(c) || !Separator(b[0])
    ensures Normalize(whole) == Normalize([c] + rest) + Normalize(b)
  {
    NormalizeFront(c, rest);
    NormalizeFront(c, rest + b);
    SameHead(c, rest, b);
    Glue(HeadOf(c, rest), Normalize(rest), Normalize(b));
  }

  /** Words and runs are normalized one by one. */
  lemma {:induction false} NormalizeParts(a: string, b: string)
    requires a == [] || b == [] || !Separator(a[|a| - 1]) || !Separator(b[0])
    ensures Normalize(a + b) == Normalize(a) + Normalize(b)
  {
    if a == [] {
      assert a + b == b;
    } else {
      NormalizeParts(a[1..], b);
      assert a == [a[0]] + a[1..] && a + b == [a[0]] + (a[1..] + b);
      NormalizeMore(a[0], a[1..], b, a + b);
    }
  }

  /** The text before the first `==`, when that is a package name: what the entry pattern takes. */
  ghost predicate EntryShaped(line: string, name: string, rest: string) {
    && name != [] && line == name + "==" + rest
    && (forall i :: 0 <= i < |name| ==> '0' <= name[i] <= '9' || 'A' <= name[i] <= 'Z' || 'a' <= name[i] <= 'z' || Separator(name[i]))
    && !Separator(name[0])
  }

  lemma EntryNameExact(line: string)
    ensures EntryName(line) == None <==> !exists name, rest :: EntryShaped(line, name, rest)
    ensures forall name, rest :: EntryShaped(line, name, rest) ==> EntryName(line) == Some(Normalize(name))
  {
    forall name, rest | EntryShaped(line, name, rest)
      ensures EntryName(line) == Some(Normalize(name))
    {
      forall c | c in name
        ensures IsNameChar(c)
      {
      }
      EntryLineName(name, rest);
    }
    if EntryName(line).Some? {
      var n := NameLength(line);
      NameIsName(line);
      assert line == line[..n] + "==" + line[n + 2..];
      assert EntryShaped(line, line[..n], line[n + 2..]);
    }
  }

  lemma {:induction false} NameIsName(line: string)
    ensures forall i :: 0 <= i < NameLength(line) ==> IsNameChar(line[i])
  {
    if line != [] && IsNameChar(line[0]) {
      NameIsName(line[1..]);
    }
  }

  /** The block's lines: the requirement, one line per hash, continued but for the last, and what asked for it. */
  ghost predicate RendersTo(pin: Pin, block: seq<string>) {
    && |block| == |pin.hashes| + 2
    && block[0] == pin.package + "==" + pin.version + " \\\n"
    && (forall i :: 0 <= i < |pin.hashes| ==>
          block[i + 1] == "    --hash=sha256:" + pin.hashes[i] + if i < |pin.hashes| - 1 then " \\\n" else "\n")
    && block[|block| - 1] == "    # via " + pin.via + "\n"
  }

  lemma {:induction false} HashLinesAt(hashes: seq<string>)
    ensures |HashLines(hashes)| == |hashes|
    ensures forall i :: 0 <= i < |hashes| ==>
      HashLines(hashes)[i] == "    --hash=sha256:" + hashes[i] + if i < |hashes| - 1 then " \\\n" else "\n"
  {
    if hashes != [] {
      HashLinesAt(hashes[1..]);
      var head := "    --hash=sha256:" + hashes[0];
      assert head + " \\" + "\n" == head + " \\\n" && head + "" + "\n" == head + "\n";
      forall i | 1 <= i < |hashes|
        ensures HashLines(hashes)[i] == "    --hash=sha256:" + hashes[i] + if i < |hashes| - 1 then " \\\n" else "\n"
      {
        assert HashLines(hashes)[i] == HashLines(hashes[1..])[i - 1];
      }
    }
  }

  lemma RenderedIs(pin: Pin)
    ensures RendersTo(pin, pin.NewBlock().lines)
  {
    HashLinesAt(pin.hashes);
  }

  /** `word` is the first word of `s`: white space, the word, and white space or the end. */
  ghost predicate FirstWordIs(s: string, gap: string, word: string, rest: string) {
    && s == gap + word + rest && Blank(gap) && word != [] && (forall c :: c in word ==> !IsSpace(c))
    && (rest == [] || IsSpace(rest[0]))
  }

  lemma {:induction false} TakeWordIs(s: string) returns (rest: string)
    ensures s == TakeWord(s) + rest && (forall c :: c in TakeWord(s) ==> !IsSpace(c)) && (rest == [] || IsSpace(rest[0]))
  {
    if s == [] || IsSpace(s[0]) {
      rest := s;
      assert [] + s == s;
    } else {
      rest := TakeWordIs(s[1..]);
      assert s == [s[0]] + s[1..];
      assert [s[0]] + (TakeWord(s[1..]) + rest) == [s[0]] + TakeWord(s[1..]) + rest;
    }
  }

  lemma {:induction false} FirstWordExact(s: string) returns (gap: string, rest: string)
    ensures FirstWord(s) == None <==> Blank(s)
    ensures FirstWord(s).Some? ==> FirstWordIs(s, gap, FirstWord(s).value, rest)
  {
    gap, rest := [], [];
    if s != [] {
      if IsSpace(s[0]) {
        var g;
        g, rest := FirstWordExact(s[1..]);
        gap := [s[0]] + g;
        assert s == [s[0]] + s[1..];
        if FirstWord(s).Some? {
          var word := FirstWord(s).value;
          assert [s[0]] + (g + word + rest) == gap + word + rest;
        }
      } else {
        rest := TakeWordIs(s);
        assert [] + TakeWord(s) + rest == TakeWord(s) + rest;
        assert s[0] in s;
      }
    }
  }

  /** The old version is the first word after the name's `==`, if there is one. */
  ghost predicate Reports(line: string, outcome: Outcome) {
    exists name, rest :: EntryShaped(line, name, rest)
      && (Blank(rest) ==> outcome == FailedAfterWrite)
      && (!Blank(rest) ==> outcome.Updated? && exists gap, more :: FirstWordIs(rest, gap, outcome.previous, more))
  }

  lemma OldVersionReports(line: string)
    requires IsEntry(line)
    ensures Reports(line, match OldVersion(line) case Some(v) => Updated(v) case None => FailedAfterWrite)
  {
    var n := NameLength(line);
    NameIsName(line);
    var name, rest := line[..n], line[n + 2..];
    assert line == name + "==" + rest;
    assert EntryShaped(line, name, rest);
    var gap, more := FirstWordExact(rest);
  }

  ghost predicate FirstWith(bs: seq<Block>, name: string, k: int) {
    0 <= k < |bs| && bs[k].name == name && forall i :: 0 <= i < k ==> bs[i].name != name
  }

  /** In front of the first greater name, or at the end. */
  ghost predicate GoesAt(bs: seq<Block>, name: string, k: int) {
    && 0 <= k <= |bs| && (k < |bs| ==> Below(name, bs[k].name))
    && forall i :: 0 <= i < k ==> !Below(name, bs[i].name)
  }

  /** The lines as header and blocks, each block an entry line and the lines up to the next. */
  ghost predicate Parts(lines: seq<string>, h: seq<string>, bs: seq<Block>) {
    lines == h + Flatten(bs) && Plain(h) && forall b :: b in bs ==> BlockOk(b)
  }

  /** Some requirement but the package itself is no block's name. */
  ghost predicate Lacks(bs: seq<Block>, pin: Pin) {
    exists r :: r in pin.requirements && r != Normalize(pin.package) && forall i :: 0 <= i < |bs| ==> bs[i].name != r
  }

  /** The text of the lines with the blocks `from` to `to` exchanged for `block`. */
  ghost predicate Spliced(h: seq<string>, bs: seq<Block>, from: int, to: int, block: seq<string>, left: string) {
    0 <= from <= to <= |bs| && left == Join(h + Flatten(bs[..from]) + block + Flatten(bs[to..]))
  }

  /** What the pin makes of the parts: refused, or the first block of the name exchanged, or a block put in. */
  ghost predicate PinTells(raw: string, h: seq<string>, bs: seq<Block>, pin: Pin, block: seq<string>, outcome: Outcome, left: string) {
    var name := Normalize(pin.package);
    && (outcome == Refused <==> Lacks(bs, pin) && !pin.allowMissing)
    && (outcome == Refused ==> left == raw)
    && (outcome != Refused ==> forall k :: FirstWith(bs, name, k) ==>
          if bs[k].lines == block then outcome == Unchanged && left == raw
          else bs[k].lines != [] && Reports(bs[k].lines[0], outcome) && Spliced(h, bs, k, k + 1, block, left))
    && (outcome != Refused && (forall i :: 0 <= i < |bs| ==> bs[i].name != name) ==>
          exists k :: InsertsAt(h, bs, name, k, block, outcome, left))
  }

  /** The block goes in front of block `k`, and the line it starts on, counted from one, is reported. */
  ghost predicate InsertsAt(h: seq<string>, bs: seq<Block>, name: string, k: int, block: seq<string>, outcome: Outcome, left: string) {
    GoesAt(bs, name, k) && outcome == Inserted(1 + |h| + |Flatten(bs[..k])|) && Spliced(h, bs, k, k, block, left)
  }

  lemma MissingIsLacks(bs: seq<Block>, pin: Pin)
    ensures Missing(bs, pin) <==> Lacks(bs, pin)
  {
  }

  lemma PlacedTells(raw: string, h: seq<string>, bs: seq<Block>, pin: Pin)
    requires Parts(Lines(raw), h, bs) && h == Header(Lines(raw)) && bs == Blocks(Lines(raw))
    ensures PinTells(raw, h, bs, pin, pin.NewBlock().lines, OutcomeOf(h, bs, pin), After(raw, pin))
  {
    var b := pin.NewBlock();
    var k := FirstNamed(bs, b.name);
    MissingIsLacks(bs, pin);
    if Missing(bs, pin) && !pin.allowMissing {
    } else if k < |bs| {
      FoundTells(raw, h, bs, pin, k);
    } else {
      NewTells(raw, h, bs, pin);
    }
  }

  lemma FoundTells(raw: string, h: seq<string>, bs: seq<Block>, pin: Pin, k: nat)
    requires h == Header(Lines(raw)) && bs == Blocks(Lines(raw)) && !(Lacks(bs, pin) && !pin.allowMissing)
    requires k < |bs| && k == FirstNamed(bs, pin.Target())
    ensures PinTells(raw, h, bs, pin, pin.NewBlock().lines, OutcomeOf(h, bs, pin), After(raw, pin))
  {
    var b := pin.NewBlock();
    MissingIsLacks(bs, pin);
    FoundBlock(bs, b, k);
    assert bs[k] in bs && BlockOk(bs[k]);
    OldVersionReports(bs[k].lines[0]);
    UpdateIsSplice(bs, k, b);
    FlattenPlaced(h, bs[..k], b, bs[k + 1..]);
    assert FirstWith(bs, b.name, k);
    forall j | FirstWith(bs, b.name, j)
      ensures j == k
    {
    }
  }

  lemma NewTells(raw: string, h: seq<string>, bs: seq<Block>, pin: Pin)
    requires h == Header(Lines(raw)) && bs == Blocks(Lines(raw)) && !(Lacks(bs, pin) && !pin.allowMissing)
    requires FirstNamed(bs, pin.Target()) == |bs|
    ensures PinTells(raw, h, bs, pin, pin.NewBlock().lines, OutcomeOf(h, bs, pin), After(raw, pin))
  {
    var b := pin.NewBlock();
    NewGoesAt(h, bs, b);
    NewOutcome(raw, h, bs, pin);
    InsertionTells(raw, h, bs, pin, b.lines, OutcomeOf(h, bs, pin), After(raw, pin), FirstGreater(bs, b.name));
  }

  lemma NewOutcome(raw: string, h: seq<string>, bs: seq<Block>, pin: Pin)
    requires h == Header(Lines(raw)) && bs == Blocks(Lines(raw)) && !(Lacks(bs, pin) && !pin.allowMissing)
    requires FirstNamed(bs, pin.Target()) == |bs| && Placed(bs, pin.NewBlock()) != bs
    ensures After(raw, pin) == Join(h + Flatten(Placed(bs, pin.NewBlock())))
    ensures var k := FirstGreater(bs, pin.Target()); OutcomeOf(h, bs, pin) == Inserted(1 + |h| + |Flatten(bs[..k])|)
  {
    MissingIsLacks(bs, pin);
  }

  lemma InsertionTells(raw: string, h: seq<string>, bs: seq<Block>, pin: Pin, block: seq<string>, outcome: Outcome, left: string, k: nat)
    requires !(Lacks(bs, pin) && !pin.allowMissing) && forall i :: 0 <= i < |bs| ==> bs[i].name != Normalize(pin.package)
    requires InsertsAt(h, bs, Normalize(pin.package), k, block, outcome, left)
    ensures PinTells(raw, h, bs, pin, block, outcome, left)
  {
  }

  lemma NewGoesAt(h: seq<string>, bs: seq<Block>, b: Block)
    requires FirstNamed(bs, b.name) == |bs|
    ensures var k := FirstGreater(bs, b.name); GoesAt(bs, b.name, k) && Spliced(h, bs, k, k, b.lines, Join(h + Flatten(Placed(bs, b))))
    ensures Placed(bs, b) != bs
  {
    var k := FirstGreater(bs, b.name);
    assert |Placed(bs, b)| == |bs| + 1;
    FlattenPlaced(h, bs[..k], b, bs[k..]);
    forall i | 0 <= i < |bs|
      ensures Below(b.name, bs[i].name) <==> !StrLe(bs[i].name, b.name)
    {
      StrLtExact(b.name, bs[i].name);
      StrLeTotal(b.name, bs[i].name);
    }
  }

  /** The whole answer: the parts of the text read, the rendered block, and what became of them. */
  ghost predicate PinAnswers(raw: string, pin: Pin, outcome: Outcome, left: string) {
    exists h, bs, block :: Parts(Lines(raw), h, bs) && RendersTo(pin, block) && PinTells(raw, h, bs, pin, block, outcome, left)
  }

  lemma ApplyTells(raw: string, pin: Pin)
    ensures PinAnswers(raw, pin, OutcomeOf(Header(Lines(raw)), Blocks(Lines(raw)), pin), After(raw, pin))
  {
    var h, bs := Header(Lines(raw)), Blocks(Lines(raw));
    HeaderAndBlocks(Lines(raw));
    RenderedIs(pin);
    assert Parts(Lines(raw), h, bs);
    PlacedTells(raw, h, bs, pin);
  }

  lemma TranslateHead(unit: string, rest: string)
    requires unit == "\r\n" || (|unit| == 1 && !(unit[0] == '\r' && rest != [] && rest[0] == '\n'))
    ensures Translate(unit + rest) == [if unit[0] == '\r' then '\n' else unit[0]] + Translate(rest)
  {
    var raw := unit + rest;
    assert raw[|unit|..] == rest;
  }

  lemma TranslateMore(unit: string, rest: string, b: string, whole: string)
    requires unit == "\r\n" || (|unit| == 1 && !(unit[0] == '\r' && rest + b != [] && (rest + b)[0] == '\n'))
    requires Translate(rest + b) == Translate(rest) + Translate(b) && whole == unit + (rest + b)
    ensures Translate(whole) == Translate(unit + rest) + Translate(b)
  {
    assert rest != [] ==> (rest + b)[0] == rest[0];
    TranslateHead(unit, rest);
    TranslateHead(unit, rest + b);
    Glue([if unit[0] == '\r' then '\n' else unit[0]], Translate(rest), Translate(b));
  }

  /** Newline translation, part by part. */
  lemma {:induction false} TranslateParts(a: string, b: string)
    requires Separate(a, b)
    ensures Translate(a + b) == Translate(a) + Translate(b)
    decreases |a|
  {
    if a == [] {
      assert a + b == b;
    } else {
      var n := if a[0] == '\r' && |a| > 1 && a[1] == '\n' then 2 else 1;
      TranslateParts(a[n..], b);
      assert a == a[..n] + a[n..] && a + b == a[..n] + (a[n..] + b);
      TranslateMore(a[..n], a[n..], b, a + b);
    }
  }

  /** `\r\n` and `\r` become `\n`; every other character stays. */
  lemma TranslateOne(c: char)
    ensures Translate("\r\n") == "\n" && Translate("\r") == "\n"
    ensures c != '\r' ==> Translate([c]) == [c]
  {
    assert "\r\n"[2..] == [] && "\r"[1..] == [] && [c][1..] == [];
  }

  /** The first entry of the target, or the number of entries. */
  method FindTarget(entries: seq<(string, nat, nat)>, target: string, ghost h: seq<string>, ghost bs: seq<Block>) returns (k: nat)
    requires EntriesExact(h, bs, entries)
    ensures k == FirstNamed(bs, target)
  {
    for i := 0 to |entries|
      invariant forall j :: 0 <= j < i ==> bs[j].name != target
    {
      if entries[i].0 == target {
        FirstNamedIs(bs, target, i);
        return i;
      }
    }
    k := |entries|;
    assert FirstNamed(bs, target) == |bs|;
  }

  /** The first entry with a greater name, or the number of entries. */
  method FindInsertion(entries: seq<(string, nat, nat)>, target: string, ghost h: seq<string>, ghost bs: seq<Block>) returns (k: nat)
    requires EntriesExact(h, bs, entries)
    ensures k == FirstGreater(bs, target)
  {
    for i := 0 to |entries|
      invariant forall j :: 0 <= j < i ==> StrLe(bs[j].name, target)
    {
      if !StrLe(entries[i].0, target) {
        FirstGreaterIs(bs, target, i);
        return i;
      }
    }
    k := |entries|;
    FirstGreaterIs(bs, target, k);
  }

  lemma {:induction false} FirstGreaterIs(bs: seq<Block>, name: string, k: nat)
    requires k <= |bs| && (k < |bs| ==> !StrLe(bs[k].name, name)) && forall i :: 0 <= i < k ==> StrLe(bs[i].name, name)
    ensures FirstGreater(bs, name) == k
  {
    if k > 0 {
      FirstGreaterIs(bs[1..], name, k - 1);
    }
  }

  /**
   `apply_pin` on the file's text: what happened, and the text it leaves. An entry line with nothing
   after `==` makes the message fail after the file is already written.
   */
  method ApplyPin(raw: string, pin: Pin) returns (outcome: Outcome, left: string)
    ensures PinAnswers(raw, pin, outcome, left)
    ensures left == After(raw, pin)
  {
    outcome, left := PinText(raw, pin);
    ApplyTells(raw, pin);
  }

  /** The steps of `apply_pin`: read the entries, check what is missing, then exchange or insert. */
  method PinText(raw: string, pin: Pin) returns (outcome: Outcome, left: string)
    ensures left == After(raw, pin)
    ensures outcome == OutcomeOf(Header(Lines(raw)), Blocks(Lines(raw)), pin)
  {
    var lines := Lines(raw);
    var entries := FindEntries(lines);
    ghost var h, bs, b := Header(lines), Blocks(lines), pin.NewBlock();
    HeaderAndBlocks(lines);
    var target := pin.Target();
    var missing := FindMissing(set i | 0 <= i < |entries| :: entries[i].0, pin);
    MissingExact(h, bs, entries, pin, missing);
    if missing != [] && !pin.allowMissing {
      return Refused, raw;
    }
    var block := RenderBlock(pin);
    var k := FindTarget(entries, target, h, bs);
    if k < |entries| {
      outcome, left := ReplaceEntry(raw, pin, lines, entries[k], block, k);
      return;
    }
    var at := FindInsertion(entries, target, h, bs);
    LastOffset(h, bs);
    var insertAt := if at < |entries| then entries[at].1 else |lines|;
    left := InsertEntry(raw, pin, lines, insertAt, block);
    outcome := Inserted(insertAt + 1);
  }

  /** The target is not there: put its block in front of the first greater name. */
  method InsertEntry(raw: string, pin: Pin, lines: seq<string>, insertAt: nat, block: seq<string>) returns (left: string)
    requires lines == Lines(raw) && block == pin.NewBlock().lines
    requires var bs := Blocks(lines);
      FirstNamed(bs, pin.Target()) == |bs| && !(Missing(bs, pin) && !pin.allowMissing) &&
      insertAt == Offset(Header(lines), bs, FirstGreater(bs, pin.Target()))
    ensures left == After(raw, pin)
  {
    ghost var h, bs, b := Header(lines), Blocks(lines), pin.NewBlock();
    HeaderAndBlocks(lines);
    InsertedLines(h, bs, lines, b, FirstGreater(bs, b.name));
    left := Join(lines[..insertAt] + block + lines[insertAt..]);
  }

  /** The target's first entry is there: leave it or rewrite its lines. */
  method ReplaceEntry(raw: string, pin: Pin, lines: seq<string>, entry: (string, nat, nat), block: seq<string>, ghost k: nat)
    returns (outcome: Outcome, left: string)
    requires lines == Lines(raw) && block == pin.NewBlock().lines
    requires var bs := Blocks(lines);
      k < |bs| && k == FirstNamed(bs, pin.Target()) && !(Missing(bs, pin) && !pin.allowMissing) &&
      entry == (bs[k].name, Offset(Header(lines), bs, k), Offset(Header(lines), bs, k + 1))
    ensures left == After(raw, pin)
    ensures outcome == OutcomeOf(Header(lines), Blocks(lines), pin)
  {
    ghost var h, bs, b := Header(lines), Blocks(lines), pin.NewBlock();
    var (_, start, end) := entry;
    HeaderAndBlocks(lines);
    BlockAt(h, bs, lines, k);
    FoundBlock(bs, b, k);
    var found := lines[start..end];
    if found == block {
      return Unchanged, raw;
    }
    ReplacedLines(h, bs, lines, b, k);
    left := Join(lines[..start] + block + lines[end..]);
    match OldVersion(found[0]) {
      case Some(v) => outcome := Updated(v);
      case None => outcome := FailedAfterWrite;
    }
  }

  lemma FoundBlock(bs: seq<Block>, b: Block, k: nat)
    requires k < |bs| && FirstNamed(bs, b.name) == k && forall x :: x in bs ==> BlockOk(x)
    ensures bs[k].lines != [] && HeadLine(bs[k]) == bs[k].lines[0]
    ensures bs[k].lines == b.lines <==> bs[k] == b
    ensures bs[k] == b <==> Placed(bs, b) == bs
  {
    assert bs[k] in bs;
  }

  lemma FlattenPlaced(h: seq<string>, left: seq<Block>, b: Block, right: seq<Block>)
    ensures h + Flatten(left + [b] + right) == h + Flatten(left) + b.lines + Flatten(right)
  {
    FlattenParts(left, [b], right);
    OneBlock(b);
    Regroup(h, Flatten(left), b.lines, Flatten(right));
  }

  /** Lines before the block, the new block, lines after it: the placed blocks behind the same header. */
  lemma ReplacedLines(h: seq<string>, bs: seq<Block>, lines: seq<string>, b: Block, k: nat)
    requires lines == h + Flatten(bs) && k < |bs| && FirstNamed(bs, b.name) == k
    ensures Offset(h, bs, k) <= |lines| && Offset(h, bs, k + 1) <= |lines|
    ensures lines[..Offset(h, bs, k)] + b.lines + lines[Offset(h, bs, k + 1)..] == h + Flatten(Placed(bs, b))
  {
    SliceAt(h, bs, lines, k);
    SliceAt(h, bs, lines, k + 1);
    UpdateIsSplice(bs, k, b);
    FlattenPlaced(h, bs[..k], b, bs[k + 1..]);
  }

  lemma InsertedLines(h: seq<string>, bs: seq<Block>, lines: seq<string>, b: Block, k: nat)
    requires lines == h + Flatten(bs) && FirstNamed(bs, b.name) == |bs| && FirstGreater(bs, b.name) == k
    ensures Placed(bs, b) != bs && Offset(h, bs, k) <= |lines|
    ensures lines[..Offset(h, bs, k)] + b.lines + lines[Offset(h, bs, k)..] == h + Flatten(Placed(bs, b))
  {
    assert |Placed(bs, b)| == |bs| + 1;
    SliceAt(h, bs, lines, k);
    FlattenPlaced(h, bs[..k], b, bs[k..]);
  }
}
