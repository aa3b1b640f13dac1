/**
 The operator tokens file: the line `entry_line` prints, the append that adds
 it, and the parser that must read it back. The file is modelled as decoded
 text; a character's UTF-8 length counts toward the size limit.
 */
module Tokens {
  import opened Sequences
  import opened PyText

  type Byte = b: int | 0 <= b < 256

  datatype Entry = Entry(digest: seq<Byte>, handle: string, role: string)

  /** Why a file is refused; line numbers count from 1. */
  datatype Refusal =
    | FieldCount(line: nat)
    | BadDigest(line: nat)
    | BadHandle(line: nat)
    | BadRole(line: nat)
    | DuplicateDigest(line: nat)
    | TooLarge

  // Fields.

  const DIGITS := "0123456789abcdef"
  const DIGEST_PREFIX := "sha256:"
  const TOKEN_PREFIX := "fio_op_"

  predicate IsHex(c: char) {
    '0' <= c <= '9' || 'a' <= c <= 'f'
  }

  function Nibble(c: char): (n: int)
    requires IsHex(c)
    ensures 0 <= n < 16 && DIGITS[n] == c
  {
    if c <= '9' then c as int - '0' as int else c as int - 'a' as int + 10
  }

  lemma NibbleOfDigit(n: int)
    requires 0 <= n < 16
    ensures IsHex(DIGITS[n]) && Nibble(DIGITS[n]) == n
  {
  }

  /** Two lowercase digits. */
  function HexByte(b: Byte): (s: string)
    ensures |s| == 2 && IsHex(s[0]) && IsHex(s[1])
    ensures Nibble(s[0]) * 16 + Nibble(s[1]) == b
  {
    NibbleOfDigit(b / 16);
    NibbleOfDigit(b % 16);
    [DIGITS[b / 16], DIGITS[b % 16]]
  }

  /** `hexdigest()`. */
  function Hex(bytes: seq<Byte>): (s: string)
    ensures |s| == 2 * |bytes|
    ensures forall c :: c in s ==> IsHex(c)
  {
    if bytes == [] then [] else HexByte(bytes[0]) + Hex(bytes[1..])
  }

  /** `bytes.fromhex`. */
  function Unhex(s: string): (bytes: seq<Byte>)
    requires |s| % 2 == 0 && forall c :: c in s ==> IsHex(c)
    ensures |bytes| == |s| / 2
  {
    if s == [] then []
    else
      assert s[0] in s && s[1] in s;
      [Nibble(s[0]) * 16 + Nibble(s[1])] + Unhex(s[2..])
  }

  lemma UnhexNext(b: Byte, s: string)
    requires |s| % 2 == 0 && forall c :: c in s ==> IsHex(c)
    ensures |HexByte(b) + s| % 2 == 0 && (forall c :: c in HexByte(b) + s ==> IsHex(c))
    ensures Unhex(HexByte(b) + s) == [b] + Unhex(s)
  {
    assert (HexByte(b) + s)[2..] == s;
  }

  lemma {:induction false} UnhexHex(bytes: seq<Byte>)
    ensures Unhex(Hex(bytes)) == bytes
  {
    if bytes != [] {
      UnhexHex(bytes[1..]);
      UnhexNext(bytes[0], Hex(bytes[1..]));
    }
  }

  /** `sha256:([0-9a-f]{64})`, matched in full. */
  predicate DigestOk(field: string) {
    DIGEST_PREFIX <= field && |field| == 71 && forall c :: c in field[7..] ==> IsHex(c)
  }

  function DigestOf(field: string): seq<Byte>
    requires DigestOk(field)
  {
    Unhex(field[7..])
  }

  predicate HandleOk(h: string) {
    && 1 <= |h| <= 64 && IsAsciiAlnum(h[0])
    && (forall c :: c in h ==> IsAsciiAlnum(c) || c == '.' || c == '_' || c == '@' || c == '-')
    && !(TOKEN_PREFIX <= h)
  }

  predicate RoleOk(r: string) {
    r == "operator" || r == "admin"
  }

  /** A digest as SHA-256 makes them. */
  predicate IsDigest(d: seq<Byte>) {
    |d| == 32
  }

  /** `hash_token`, given the digest of the token. */
  function DigestField(d: seq<Byte>): string {
    DIGEST_PREFIX + Hex(d)
  }

  lemma DigestFieldRoundTrip(d: seq<Byte>)
    requires IsDigest(d)
    ensures DigestOk(DigestField(d)) && DigestOf(DigestField(d)) == d
    ensures forall c :: c in DigestField(d) ==> !IsSpace(c)
  {
    UnhexHex(d);
    assert DigestField(d)[7..] == Hex(d);
  }

  /** `entry_line`: refuses a bad handle, then a bad role. */
  function EntryLine(d: seq<Byte>, handle: string, role: string): Option<string> {
    if HandleOk(handle) && RoleOk(role) then Some(PrintLine(d, handle, role)) else None
  }

  function PrintLine(d: seq<Byte>, handle: string, role: string): string {
    DigestField(d) + " " + handle + " " + role
  }

  // Splitting a line into fields.

  function WordEnd(s: string): (n: nat)
    ensures n <= |s|
    ensures s != [] && !IsSpace(s[0]) ==> n > 0
  {
    if s == [] || IsSpace(s[0]) then 0 else 1 + WordEnd(s[1..])
  }

  /** `line.split()`. */
  function Fields(s: string): seq<string>
    decreases |s|
  {
    if s == [] then []
    else if IsSpace(s[0]) then Fields(s[1..])
    else [s[..WordEnd(s)]] + Fields(s[WordEnd(s)..])
  }

  function LStrip(s: string): string {
    if s != [] && IsSpace(s[0]) then LStrip(s[1..]) else s
  }

  function RStrip(s: string): string {
    if s != [] && IsSpace(s[|s| - 1]) then RStrip(s[..|s| - 1]) else s
  }

  function Strip(s: string): string {
    RStrip(LStrip(s))
  }

  predicate Word(w: string) {
    w != [] && forall c :: c in w ==> !IsSpace(c)
  }

  lemma {:induction false} WordEndOf(w: string, rest: string)
    requires forall c :: c in w ==> !IsSpace(c)
    requires rest == [] || IsSpace(rest[0])
    ensures WordEnd(w + rest) == |w|
  {
    if w == [] {
      assert w + rest == rest;
    } else {
      assert w[0] in w;
      assert (w + rest)[1..] == w[1..] + rest;
      WordEndOf(w[1..], rest);
    }
  }

  lemma FieldsOfWord(w: string, rest: string)
    requires Word(w) && (rest == [] || IsSpace(rest[0]))
    ensures Fields(w + rest) == [w] + Fields(rest)
  {
    WordEndOf(w, rest);
    var s := w + rest;
    assert s[0] == w[0] && w[0] in w;
    assert s[..|w|] == w && s[|w|..] == rest;
  }

  lemma FieldsAfterSpace(rest: string)
    ensures Fields(" " + rest) == Fields(rest)
  {
    assert (" " + rest)[1..] == rest;
  }

  lemma FieldsOfFirst(w: string, rest: string)
    requires Word(w)
    ensures Fields(w + (" " + rest)) == [w] + Fields(rest)
  {
    FieldsOfWord(w, " " + rest);
    FieldsAfterSpace(rest);
  }

  lemma StripNothing(line: string)
    requires line != [] && !IsSpace(line[0]) && !IsSpace(line[|line| - 1])
    ensures Strip(line) == line
  {
  }

  lemma FromTheRight(a: string, b: string, c: string)
    ensures a + " " + b + " " + c == a + (" " + (b + (" " + (c + []))))
  {
  }

  lemma ThreeFields(a: string, b: string, c: string)
    requires Word(a) && Word(b) && Word(c)
    ensures Fields(a + " " + b + " " + c) == [a, b, c]
    ensures Strip(a + " " + b + " " + c) == a + " " + b + " " + c
  {
    FromTheRight(a, b, c);
    FieldsOfWord(c, []);
    FieldsOfFirst(b, c + []);
    FieldsOfFirst(a, b + (" " + (c + [])));
    assert a[0] in a && c[|c| - 1] in c;
    StripNothing(a + " " + b + " " + c);
  }

  // Parsing.

  datatype LineResult = Skipped | Parsed(entry: Entry) | Bad(refusal: Refusal)

  function ParseLine(raw: string, number: nat): LineResult {
    var line := Strip(raw);
    if line == [] || line[0] == '#' then Skipped
    else
      var fields := Fields(line);
      if |fields| != 3 then Bad(FieldCount(number))
      else if !DigestOk(fields[0]) then Bad(BadDigest(number))
      else if !HandleOk(fields[1]) then Bad(BadHandle(number))
      else if !RoleOk(fields[2]) then Bad(BadRole(number))
      else Parsed(Entry(DigestOf(fields[0]), fields[1], fields[2]))
  }

  predicate Listed(entries: seq<Entry>, d: seq<Byte>) {
    exists i :: 0 <= i < |entries| && entries[i].digest == d
  }

  /** What one more line makes of the result so far; the first refusal stands. */
  function ParseNext(soFar: Result<seq<Entry>, Refusal>, raw: string, number: nat): Result<seq<Entry>, Refusal> {
    match soFar
    case Err(_) => soFar
    case Ok(entries) =>
      match ParseLine(raw, number)
      case Skipped => soFar
      case Bad(refusal) => Err(refusal)
      case Parsed(e) => if Listed(entries, e.digest) then Err(DuplicateDigest(number)) else Ok(entries + [e])
  }

  function ParseLines(lines: seq<string>): Result<seq<Entry>, Refusal> {
    if lines == [] then Ok([])
    else ParseNext(ParseLines(lines[..|lines| - 1]), lines[|lines| - 1], |lines|)
  }

  /** `parse_tokens`. */
  function Parse(text: string): Result<seq<Entry>, Refusal> {
    ParseLines(SplitLines(text))
  }

  /** The loop of `parse_tokens`, which stops at the first refusal. */
  method ParseTokens(text: string) returns (r: Result<seq<Entry>, Refusal>)
    ensures r == Parse(text) && Reads(SplitLines(text), r)
  {
    ParseSays(text);
    var lines := SplitLines(text);
    var entries: seq<Entry>, seen: set<seq<Byte>> := [], {};
    for i := 0 to |lines|
      invariant ParseLines(lines[..i]) == Ok(entries)
      invariant forall d :: d in seen <==> Listed(entries, d)
    {
      ParseStep(lines, i);
      match ParseLine(lines[i], i + 1) {
        case Skipped =>
        case Bad(refusal) =>
          RefusalStands(lines, i + 1);
          return Err(refusal);
        case Parsed(e) =>
          if e.digest in seen {
            RefusalStands(lines, i + 1);
            return Err(DuplicateDigest(i + 1));
          }
          ListedAppend(entries, e);
          entries, seen := entries + [e], seen + {e.digest};
      }
    }
    assert lines[..|lines|] == lines;
    r := Ok(entries);
  }

  lemma ParseStep(lines: seq<string>, i: nat)
    requires i < |lines|
    ensures ParseLines(lines[..i + 1]) == ParseNext(ParseLines(lines[..i]), lines[i], i + 1)
  {
    assert lines[..i + 1][..i] == lines[..i];
  }

  lemma ListedAppend(entries: seq<Entry>, e: Entry)
    ensures forall d :: Listed(entries + [e], d) <==> Listed(entries, d) || d == e.digest
  {
    var more := entries + [e];
    forall d
      ensures Listed(more, d) <==> Listed(entries, d) || d == e.digest
    {
      assert more[|entries|] == e;
      if Listed(entries, d) {
        var i :| 0 <= i < |entries| && entries[i].digest == d;
        assert more[i].digest == d;
      }
    }
  }

  lemma {:induction false} RefusalStands(lines: seq<string>, k: nat)
    requires k <= |lines| && ParseLines(lines[..k]).Err?
    ensures ParseLines(lines) == ParseLines(lines[..k])
    decreases |lines|
  {
    if k == |lines| {
      assert lines[..k] == lines;
    } else {
      var front := lines[..|lines| - 1];
      assert front[..k] == lines[..k];
      RefusalStands(front, k);
    }
  }

  // What parsing means, line by line.

  function Entries(parsed: LineResult): seq<Entry> {
    if parsed.Parsed? then [parsed.entry] else []
  }

  /** The entries on the well-formed entry lines, in order. */
  function EntriesOf(lines: seq<string>): seq<Entry> {
    if lines == [] then []
    else EntriesOf(lines[..|lines| - 1]) + Entries(ParseLine(lines[|lines| - 1], |lines|))
  }

  ghost predicate DistinctDigests(entries: seq<Entry>) {
    forall i, j :: 0 <= i < j < |entries| ==> entries[i].digest != entries[j].digest
  }

  ghost predicate NoBadLine(lines: seq<string>) {
    forall i {:trigger lines[i]} :: 0 <= i < |lines| ==> !ParseLine(lines[i], i + 1).Bad?
  }

  /** Line `k` is the first that makes the lines up to it unacceptable. */
  ghost predicate FirstRefused(lines: seq<string>, k: int) {
    1 <= k <= |lines| && ParseLines(lines[..k - 1]).Ok? && ParseLines(lines[..k]).Err?
  }

  lemma OneMoreBad(lines: seq<string>, line: string)
    ensures NoBadLine(lines + [line]) <==> NoBadLine(lines) && !ParseLine(line, |lines| + 1).Bad?
  {
    var all := lines + [line];
    assert all[|lines|] == line;
    assert forall i :: 0 <= i < |lines| ==> all[i] == lines[i];
  }

  lemma OneMoreEntry(lines: seq<string>, line: string)
    ensures EntriesOf(lines + [line]) == EntriesOf(lines) + Entries(ParseLine(line, |lines| + 1))
  {
    assert (lines + [line])[..|lines|] == lines;
  }

  lemma OneMoreLine(lines: seq<string>, line: string)
    ensures ParseLines(lines + [line]) == ParseNext(ParseLines(lines), line, |lines| + 1)
  {
    assert (lines + [line])[..|lines|] == lines;
  }

  lemma DistinctAppend(entries: seq<Entry>, e: Entry)
    ensures DistinctDigests(entries + [e]) <==> DistinctDigests(entries) && !Listed(entries, e.digest)
  {
    var all := entries + [e];
    assert all[|entries|] == e;
    assert forall i :: 0 <= i < |entries| ==> all[i] == entries[i];
  }

  /** Both sides of the acceptance condition, after one more line. */
  lemma NextAccepted(soFar: Result<seq<Entry>, Refusal>, entries: seq<Entry>, line: string, number: nat)
    requires soFar.Ok? ==> soFar.value == entries && DistinctDigests(entries)
    ensures var next, more := ParseNext(soFar, line, number), entries + Entries(ParseLine(line, number));
      && (next.Ok? <==> soFar.Ok? && !ParseLine(line, number).Bad? && DistinctDigests(more))
      && (next.Ok? ==> next.value == more)
      && (DistinctDigests(more) ==> DistinctDigests(entries))
  {
    var parsed := ParseLine(line, number);
    if parsed.Parsed? {
      DistinctAppend(entries, parsed.entry);
    } else {
      assert entries + [] == entries;
    }
  }

  /**
   Lines are accepted exactly when none is malformed and no digest is listed twice; the entries are then those
   on the lines, in order.
   */
  lemma {:induction false} ParseExact(lines: seq<string>)
    ensures ParseLines(lines).Ok? <==> NoBadLine(lines) && DistinctDigests(EntriesOf(lines))
    ensures ParseLines(lines).Ok? ==> ParseLines(lines).value == EntriesOf(lines)
  {
    if lines != [] {
      var front, last := lines[..|lines| - 1], lines[|lines| - 1];
      assert lines == front + [last];
      ParseExact(front);
      OneMoreBad(front, last);
      OneMoreEntry(front, last);
      OneMoreLine(front, last);
      NextAccepted(ParseLines(front), EntriesOf(front), last, |front| + 1);
    }
  }

  /** A refusal names the first line that had to be refused. */
  lemma {:induction false} RefusalNamesFirst(lines: seq<string>)
    requires ParseLines(lines).Err?
    ensures !ParseLines(lines).error.TooLarge? && FirstRefused(lines, ParseLines(lines).error.line)
  {
    var front, n := lines[..|lines| - 1], |lines|;
    if ParseLines(front).Err? {
      RefusalNamesFirst(front);
      var k := ParseLines(front).error.line;
      assert front[..k - 1] == lines[..k - 1] && front[..k] == lines[..k];
    } else {
      assert lines[..n] == lines && lines[..n - 1] == front;
    }
  }

  // What a file says, told without the functions that read it.

  /** `words` are the maximal runs of `s` without white space, in order. */
  ghost predicate WordsOf(s: string, words: seq<string>)
    decreases |words|
  {
    if words == [] then Blank(s)
    else exists gap, rest {:trigger WordAt(s, gap, words[0], rest)} :: WordAt(s, gap, words[0], rest) && WordsOf(rest, words[1..])
  }

  ghost predicate WordAt(s: string, gap: string, word: string, rest: string) {
    && s == gap + word + rest && Blank(gap)
    && word != [] && (forall i :: 0 <= i < |word| ==> !IsSpace(word[i]))
    && (rest == [] || IsSpace(rest[0]))
  }

  /** `c` is the lowercase hexadecimal digit of `n`. */
  ghost predicate DigitIs(c: char, n: int) {
    if 0 <= n < 10 then c as int == '0' as int + n else 10 <= n < 16 && c as int == 'a' as int + n - 10
  }

  ghost predicate PairIs(c: char, d: char, b: Byte) {
    exists hi, lo :: DigitIs(c, hi) && DigitIs(d, lo) && b == 16 * hi + lo
  }

  /** `sha256:` and the two digits of each of 32 bytes. */
  ghost predicate DigestSays(word: string, d: seq<Byte>) {
    && |d| == 32 && |word| == 71 && word[..7] == "sha256:"
    && forall i :: 0 <= i < |d| ==> PairIs(word[7 + 2 * i], word[7 + 2 * i + 1], d[i])
  }

  ghost predicate AlnumChar(c: char) {
    '0' <= c <= '9' || 'A' <= c <= 'Z' || 'a' <= c <= 'z'
  }

  /** 1 to 64 letters, digits or `. _ @ -`, a letter or digit first, and not like a generated token. */
  ghost predicate HandleSays(h: string) {
    && 1 <= |h| <= 64 && AlnumChar(h[0])
    && (forall i :: 0 <= i < |h| ==> AlnumChar(h[i]) || h[i] == '.' || h[i] == '_' || h[i] == '@' || h[i] == '-')
    && !(|h| >= 7 && h[..7] == "fio_op_")
  }

  ghost predicate RoleSays(r: string) {
    r == "operator" || r == "admin"
  }

  /** What a line of these words is: skipped, refused for the first thing wrong with it, or an entry. */
  ghost predicate LineSays(words: seq<string>, number: nat, r: LineResult) {
    if words == [] || (words[0] != [] && words[0][0] == '#') then r == Skipped
    else if |words| != 3 then r == Bad(FieldCount(number))
    else if !exists d :: DigestSays(words[0], d) then r == Bad(BadDigest(number))
    else if !HandleSays(words[1]) then r == Bad(BadHandle(number))
    else if !RoleSays(words[2]) then r == Bad(BadRole(number))
    else r.Parsed? && DigestSays(words[0], r.entry.digest) && r.entry.handle == words[1] && r.entry.role == words[2]
  }

  ghost predicate LineIs(line: string, number: nat, r: LineResult) {
    exists words {:trigger WordsOf(line, words)} :: WordsOf(line, words) && LineSays(words, number, r)
  }

  /** Line `k` is malformed, or lists a digest again. */
  ghost predicate Refuses(results: seq<LineResult>, k: int) {
    && 0 <= k < |results|
    && (results[k].Bad? || (results[k].Parsed? &&
          exists j :: 0 <= j < k && results[j].Parsed? && results[j].entry.digest == results[k].entry.digest))
  }

  ghost predicate RefusedAt(results: seq<LineResult>, k: int, e: Refusal) {
    && Refuses(results, k) && (forall j :: 0 <= j < k ==> !Refuses(results, j))
    && e == if results[k].Bad? then results[k].refusal else DuplicateDigest(k + 1)
  }

  ghost predicate Holds(parsed: seq<LineResult>, entries: seq<Entry>) {
    |parsed| == |entries| && forall i :: 0 <= i < |entries| ==> parsed[i] == Parsed(entries[i])
  }

  /** The entries are those of the entry lines, each once and in order. */
  ghost predicate EntriesAre(results: seq<LineResult>, entries: seq<Entry>) {
    exists parsed {:trigger Holds(parsed, entries)} ::
      Picks(parsed, results, set k | 0 <= k < |results| && results[k].Parsed?) && Holds(parsed, entries)
  }

  ghost predicate ResultsAre(lines: seq<string>, results: seq<LineResult>) {
    |results| == |lines| && forall i :: 0 <= i < |lines| ==> LineIs(lines[i], i + 1, results[i])
  }

  /** The entries of the lines when none is to be refused; otherwise the refusal of the first that is. */
  ghost predicate FileSays(results: seq<LineResult>, r: Result<seq<Entry>, Refusal>) {
    if forall k :: 0 <= k < |results| ==> !Refuses(results, k) then r.Ok? && EntriesAre(results, r.value)
    else r.Err? && exists k :: RefusedAt(results, k, r.error)
  }

  /** What reading the lines of a file gives. */
  ghost predicate Reads(lines: seq<string>, r: Result<seq<Entry>, Refusal>) {
    exists results {:trigger ResultsAre(lines, results)} :: ResultsAre(lines, results) && FileSays(results, r)
  }

  lemma {:induction false} WordEndIsEnd(s: string)
    ensures forall i :: 0 <= i < WordEnd(s) ==> !IsSpace(s[i])
    ensures WordEnd(s) < |s| ==> IsSpace(s[WordEnd(s)])
  {
    if s != [] && !IsSpace(s[0]) {
      WordEndIsEnd(s[1..]);
    }
  }

  lemma WordsAfterSpace(s: string, words: seq<string>)
    requires s != [] && IsSpace(s[0]) && WordsOf(s[1..], words)
    ensures WordsOf(s, words)
  {
    assert s == [s[0]] + s[1..];
    if words != [] {
      var gap, rest :| WordAt(s[1..], gap, words[0], rest) && WordsOf(rest, words[1..]);
      assert [s[0]] + (gap + words[0] + rest) == ([s[0]] + gap) + words[0] + rest;
      assert WordAt(s, [s[0]] + gap, words[0], rest);
    }
  }

  lemma WordsCons(s: string, gap: string, word: string, rest: string, words: seq<string>)
    requires WordAt(s, gap, word, rest) && WordsOf(rest, words)
    ensures WordsOf(s, [word] + words)
  {
    var all := [word] + words;
    assert all[0] == word && all[1..] == words;
    assert WordAt(s, gap, all[0], rest) && WordsOf(rest, all[1..]);
  }

  /** `split()` gives the words. */
  lemma {:induction false} FieldsAreWords(s: string)
    ensures WordsOf(s, Fields(s))
    decreases |s|
  {
    if s != [] {
      if IsSpace(s[0]) {
        FieldsAreWords(s[1..]);
        WordsAfterSpace(s, Fields(s[1..]));
      } else {
        var n := WordEnd(s);
        WordEndIsEnd(s);
        FieldsAreWords(s[n..]);
        assert s == [] + s[..n] + s[n..];
        assert WordAt(s, [], s[..n], s[n..]);
        WordsCons(s, [], s[..n], s[n..], Fields(s[n..]));
      }
    }
  }

  lemma {:induction false} FieldsOfLStrip(s: string)
    ensures Fields(LStrip(s)) == Fields(s)
  {
    if s != [] && IsSpace(s[0]) {
      FieldsOfLStrip(s[1..]);
    }
  }

  lemma {:induction false} FieldsBeforeSpace(s: string, c: char)
    requires IsSpace(c)
    ensures Fields(s + [c]) == Fields(s)
    decreases |s|
  {
    if s == [] {
      assert (s + [c])[1..] == [];
    } else if IsSpace(s[0]) {
      assert (s + [c])[1..] == s[1..] + [c];
      FieldsBeforeSpace(s[1..], c);
    } else {
      var n := WordEnd(s);
      WordEndIsEnd(s);
      WordEndOf(s[..n], s[n..] + [c]);
      assert s[..n] + (s[n..] + [c]) == s + [c] && s[..n] + s[n..] == s;
      assert (s + [c])[..n] == s[..n] && (s + [c])[n..] == s[n..] + [c];
      FieldsBeforeSpace(s[n..], c);
    }
  }

  lemma {:induction false} FieldsOfRStrip(s: string)
    ensures Fields(RStrip(s)) == Fields(s)
  {
    if s != [] && IsSpace(s[|s| - 1]) {
      FieldsOfRStrip(s[..|s| - 1]);
      FieldsBeforeSpace(s[..|s| - 1], s[|s| - 1]);
      assert s == s[..|s| - 1] + [s[|s| - 1]];
    }
  }

  lemma {:induction false} LStripStarts(s: string)
    ensures LStrip(s) != [] ==> !IsSpace(LStrip(s)[0])
  {
    if s != [] && IsSpace(s[0]) {
      LStripStarts(s[1..]);
    }
  }

  lemma {:induction false} RStripStarts(s: string)
    requires s != [] && !IsSpace(s[0])
    ensures RStrip(s) != [] && RStrip(s)[0] == s[0]
  {
    if IsSpace(s[|s| - 1]) {
      RStripStarts(s[..|s| - 1]);
    }
  }

  /** Stripping loses no word, and what is left starts with the first. */
  lemma StripKeepsWords(raw: string)
    ensures Fields(Strip(raw)) == Fields(raw)
    ensures Strip(raw) == [] <==> Fields(raw) == []
    ensures Strip(raw) != [] ==> Fields(raw)[0] != [] && Fields(raw)[0][0] == Strip(raw)[0]
  {
    FieldsOfLStrip(raw);
    FieldsOfRStrip(LStrip(raw));
    LStripStarts(raw);
    var line := LStrip(raw);
    if line != [] {
      RStripStarts(line);
      var stripped := RStrip(line);
      assert Fields(stripped)[0] == stripped[..WordEnd(stripped)];
    }
  }

  lemma NibbleIs(c: char)
    requires IsHex(c)
    ensures DigitIs(c, Nibble(c))
  {
  }

  ghost predicate PairsAre(s: string, d: seq<Byte>) {
    |s| == 2 * |d| && forall i :: 0 <= i < |d| ==> PairIs(s[2 * i], s[2 * i + 1], d[i])
  }

  lemma MorePairs(c: char, e: char, b: Byte, s: string, d: seq<Byte>)
    requires PairIs(c, e, b) && PairsAre(s, d)
    ensures PairsAre([c, e] + s, [b] + d)
  {
    var t, more := [c, e] + s, [b] + d;
    forall i | 0 <= i < |more|
      ensures PairIs(t[2 * i], t[2 * i + 1], more[i])
    {
      if i > 0 {
        assert PairIs(s[2 * (i - 1)], s[2 * (i - 1) + 1], d[i - 1]);
      }
    }
  }

  lemma UnhexMore(c: char, e: char, rest: string)
    requires IsHex(c) && IsHex(e) && |rest| % 2 == 0 && forall x :: x in rest ==> IsHex(x)
    requires PairsAre(rest, Unhex(rest))
    ensures |[c, e] + rest| % 2 == 0 && forall x :: x in [c, e] + rest ==> IsHex(x)
    ensures PairsAre([c, e] + rest, Unhex([c, e] + rest))
  {
    NibbleIs(c);
    NibbleIs(e);
    assert ([c, e] + rest)[2..] == rest;
    MorePairs(c, e, Nibble(c) * 16 + Nibble(e), rest, Unhex(rest));
  }

  lemma {:induction false} UnhexPairs(s: string)
    requires |s| % 2 == 0 && forall c :: c in s ==> IsHex(c)
    ensures PairsAre(s, Unhex(s))
  {
    if s != [] {
      assert s[0] in s && s[1] in s;
      UnhexPairs(s[2..]);
      UnhexMore(s[0], s[1], s[2..]);
      assert s == [s[0], s[1]] + s[2..];
    }
  }

  lemma DigestOkSays(word: string)
    ensures DigestOk(word) <==> exists d :: DigestSays(word, d)
    ensures DigestOk(word) ==> DigestSays(word, DigestOf(word))
  {
    if DigestOk(word) {
      UnhexPairs(word[7..]);
      var d := DigestOf(word);
      assert word[..7] == "sha256:";
      forall i | 0 <= i < |d|
        ensures PairIs(word[7 + 2 * i], word[7 + 2 * i + 1], d[i])
      {
        assert PairIs(word[7..][2 * i], word[7..][2 * i + 1], d[i]);
      }
      assert DigestSays(word, d);
    }
    if d :| DigestSays(word, d) {
      forall j | 0 <= j < 64
        ensures IsHex(word[7..][j])
      {
        var i := j / 2;
        assert PairIs(word[7 + 2 * i], word[7 + 2 * i + 1], d[i]);
        assert j == 2 * i || j == 2 * i + 1;
      }
    }
  }

  lemma HandleOkSays(h: string)
    ensures HandleOk(h) <==> HandleSays(h)
  {
    if HandleSays(h) {
      forall c | c in h
        ensures IsAsciiAlnum(c) || c == '.' || c == '_' || c == '@' || c == '-'
      {
      }
    }
    if HandleOk(h) {
      forall i | 0 <= i < |h|
        ensures AlnumChar(h[i]) || h[i] == '.' || h[i] == '_' || h[i] == '@' || h[i] == '-'
      {
        assert h[i] in h;
      }
    }
  }

  /** Reading a line gives what the line says. */
  lemma ParseLineSays(raw: string, number: nat)
    ensures LineIs(raw, number, ParseLine(raw, number))
  {
    var words := Fields(raw);
    FieldsAreWords(raw);
    StripKeepsWords(raw);
    if |words| == 3 {
      DigestOkSays(words[0]);
      HandleOkSays(words[1]);
    }
    assert LineSays(words, number, ParseLine(raw, number));
  }

  function Results(lines: seq<string>): (r: seq<LineResult>)
    ensures |r| == |lines| && forall i :: 0 <= i < |r| ==> r[i] == ParseLine(lines[i], i + 1)
  {
    seq(|lines|, i requires 0 <= i < |lines| => ParseLine(lines[i], i + 1))
  }

  lemma RefusesFront(results: seq<LineResult>, last: LineResult)
    ensures forall k :: 0 <= k < |results| ==> (Refuses(results + [last], k) <==> Refuses(results, k))
  {
    var more := results + [last];
    forall k | 0 <= k < |results|
      ensures Refuses(more, k) <==> Refuses(results, k)
    {
      assert forall j :: 0 <= j <= k ==> more[j] == results[j];
    }
  }

  lemma EntriesMore(results: seq<LineResult>, entries: seq<Entry>, last: LineResult)
    requires EntriesAre(results, entries)
    ensures EntriesAre(results + [last], if last.Parsed? then entries + [last.entry] else entries)
  {
    var more, keep := results + [last], set k | 0 <= k < |results| && results[k].Parsed?;
    var parsed :| Picks(parsed, results, keep) && Holds(parsed, entries);
    PicksMore(parsed, results, keep, last);
    assert forall k :: 0 <= k < |results| ==> more[k] == results[k];
    assert (set k | 0 <= k < |more| && more[k].Parsed?) == keep + if last.Parsed? then {|results|} else {};
    if last.Parsed? {
      assert Holds(parsed + [last], entries + [last.entry]);
    }
  }

  ghost predicate SeenIn(results: seq<LineResult>, d: seq<Byte>) {
    exists j :: 0 <= j < |results| && results[j].Parsed? && results[j].entry.digest == d
  }

  lemma ListedWasSeen(results: seq<LineResult>, parsed: seq<LineResult>, entries: seq<Entry>, d: seq<Byte>)
    requires (forall r :: r in parsed ==> r in results) && Holds(parsed, entries)
    ensures Listed(entries, d) ==> SeenIn(results, d)
  {
    if Listed(entries, d) {
      var i :| 0 <= i < |entries| && entries[i].digest == d;
      assert parsed[i] in parsed;
      var j :| 0 <= j < |results| && results[j] == parsed[i];
    }
  }

  lemma SeenIsListed(results: seq<LineResult>, parsed: seq<LineResult>, entries: seq<Entry>, d: seq<Byte>)
    requires (forall j :: 0 <= j < |results| && results[j].Parsed? ==> results[j] in parsed) && Holds(parsed, entries)
    ensures SeenIn(results, d) ==> Listed(entries, d)
  {
    if SeenIn(results, d) {
      var j :| 0 <= j < |results| && results[j].Parsed? && results[j].entry.digest == d;
      var i :| 0 <= i < |parsed| && parsed[i] == results[j];
      assert entries[i].digest == d;
    }
  }

  /** A digest is among the entries read so far exactly when an earlier line lists it. */
  lemma ListedIsSeen(results: seq<LineResult>, entries: seq<Entry>, d: seq<Byte>)
    requires EntriesAre(results, entries)
    ensures Listed(entries, d) <==> SeenIn(results, d)
  {
    var keep := set k | 0 <= k < |results| && results[k].Parsed?;
    var parsed :| Picks(parsed, results, keep) && Holds(parsed, entries);
    PicksMembers(parsed, results, keep);
    ListedWasSeen(results, parsed, entries, d);
    SeenIsListed(results, parsed, entries, d);
  }

  lemma RefusalSaysMore(results: seq<LineResult>, soFar: Result<seq<Entry>, Refusal>, last: LineResult)
    requires FileSays(results, soFar) && soFar.Err?
    ensures FileSays(results + [last], soFar)
  {
    var more := results + [last];
    RefusesFront(results, last);
    var k :| RefusedAt(results, k, soFar.error);
    assert more[k] == results[k];
    assert RefusedAt(more, k, soFar.error);
  }

  /** What the next line of a file without fault so far makes of it. */
  ghost predicate NextIs(entries: seq<Entry>, number: nat, last: LineResult, next: Result<seq<Entry>, Refusal>) {
    && (last.Skipped? ==> next == Ok(entries))
    && (last.Bad? ==> next == Err(last.refusal))
    && (last.Parsed? ==> next == if Listed(entries, last.entry.digest) then Err(DuplicateDigest(number)) else Ok(entries + [last.entry]))
  }

  lemma LastRefuses(results: seq<LineResult>, entries: seq<Entry>, last: LineResult)
    requires EntriesAre(results, entries)
    ensures Refuses(results + [last], |results|) <==> last.Bad? || (last.Parsed? && Listed(entries, last.entry.digest))
  {
    var more, n := results + [last], |results|;
    assert more[n] == last && forall j :: 0 <= j < n ==> more[j] == results[j];
    if last.Parsed? {
      ListedIsSeen(results, entries, last.entry.digest);
    }
  }

  lemma EntriesSayMore(results: seq<LineResult>, entries: seq<Entry>, last: LineResult, next: Result<seq<Entry>, Refusal>)
    requires FileSays(results, Ok(entries)) && NextIs(entries, |results| + 1, last, next)
    ensures FileSays(results + [last], next)
  {
    var more, n := results + [last], |results|;
    RefusesFront(results, last);
    EntriesMore(results, entries, last);
    LastRefuses(results, entries, last);
    if next.Err? {
      assert RefusedAt(more, n, next.error);
    }
  }

  ghost predicate LinesSay(lines: seq<string>) {
    FileSays(Results(lines), ParseLines(lines))
  }

  lemma OneMoreSays(lines: seq<string>, line: string, whole: seq<string>)
    requires LinesSay(lines) && whole == lines + [line]
    ensures LinesSay(whole)
  {
    var parsed := ParseLine(line, |lines| + 1);
    OneMoreLine(lines, line);
    assert Results(whole) == Results(lines) + [parsed];
    if ParseLines(lines).Err? {
      RefusalSaysMore(Results(lines), ParseLines(lines), parsed);
    } else {
      EntriesSayMore(Results(lines), ParseLines(lines).value, parsed, ParseLines(whole));
    }
  }

  lemma NothingSays()
    ensures LinesSay([])
  {
    PicksNone<LineResult>([]);
    assert Holds([], []);
    assert EntriesAre([], []);
  }

  lemma {:induction false} ParseLinesSays(lines: seq<string>)
    ensures LinesSay(lines)
  {
    if lines == [] {
      NothingSays();
    } else {
      ParseLinesSays(lines[..|lines| - 1]);
      OneMoreSays(lines[..|lines| - 1], lines[|lines| - 1], lines);
    }
  }

  /** Reading a file gives what its lines say. */
  lemma ParseSays(text: string)
    ensures Reads(SplitLines(text), Parse(text))
  {
    var lines := SplitLines(text);
    ParseLinesSays(lines);
    forall i | 0 <= i < |lines|
      ensures LineIs(lines[i], i + 1, Results(lines)[i])
    {
      ParseLineSays(lines[i], i + 1);
    }
    assert ResultsAre(lines, Results(lines));
  }

  /** `entry_line` prints the digest, the handle and the role of a good handle and role, and nothing else. */
  lemma EntryLineSays(d: seq<Byte>, handle: string, role: string)
    requires IsDigest(d)
    ensures EntryLine(d, handle, role).Some? <==> HandleSays(handle) && RoleSays(role)
    ensures EntryLine(d, handle, role).Some? ==>
      exists field :: DigestSays(field, d) && EntryLine(d, handle, role).value == field + " " + handle + " " + role
  {
    HandleOkSays(handle);
    DigestFieldRoundTrip(d);
    DigestOkSays(DigestField(d));
  }

  // Appending.

  /** The bytes of one character in UTF-8. */
  lemma Utf8One(c: char)
    ensures Utf8Length([c]) == if c as int <= 0x7F then 1 else if c as int <= 0x7FF then 2 else if c as int <= 0xFFFF then 3 else 4
  {
    assert [c][..0] == [];
  }

  function Utf8Length(text: string): nat {
    if text == [] then 0
    else
      var c := text[|text| - 1] as int;
      Utf8Length(text[..|text| - 1]) + if c < 0x80 then 1 else if c < 0x800 then 2 else if c < 0x1_0000 then 3 else 4
  }

  const MAX_TOKENS_FILE_BYTES: nat := 0x10_0000

  /** `load_tokens_file` on the text of a private regular file. */
  function Load(text: string): Result<seq<Entry>, Refusal> {
    if Utf8Length(text) > MAX_TOKENS_FILE_BYTES then Err(TooLarge) else Parse(text)
  }

  /** The text `_append_line` leaves: a newline first unless the file is empty or ends in one. */
  function Appended(text: string, line: string): string {
    text + (if text == [] || text[|text| - 1] == '\n' then [] else "\n") + line + "\n"
  }

  /** The line and its newline are added, behind a newline when the text lacks its last one. */
  ghost predicate Grown(text: string, line: string, after: string) {
    if text == [] || text[|text| - 1] == '\n' then after == text + line + "\n" else after == text + "\n" + line + "\n"
  }

  class TokensFile {
    var text: Option<string>

    /** `_append_line`: refuse a bad existing file unchanged, append, then validate what is there now. */
    method AppendLine(line: string) returns (r: Result<(), Refusal>)
      modifies this
      ensures old(text).Some? && Load(old(text).value).Err? ==> text == old(text) && r == Err(Load(old(text).value).error)
      ensures old(text).None? || Load(old(text).value).Ok? ==>
        && text == Some(Appended(if old(text).Some? then old(text).value else [], line))
        && Grown(if old(text).Some? then old(text).value else [], line, text.value)
        && (r.Ok? <==> Load(text.value).Ok?)
        && (r.Err? ==> Load(text.value) == Err(r.error))
    {
      var before: string := [];
      if text.Some? {
        before := text.value;
        var loaded := LoadTokens(before);
        if loaded.Err? {
          return Err(loaded.error);
        }
      }
      var prefix := "";
      if text.Some? && before != [] {
        prefix := if before[|before| - 1] == '\n' then "" else "\n";
      }
      text := Some(before + prefix + line + "\n");
      assert before + [] == before;
      var loaded := LoadTokens(text.value);
      r := if loaded.Ok? then Ok(()) else Err(loaded.error);
    }
  }

  method LoadTokens(text: string) returns (r: Result<seq<Entry>, Refusal>)
    ensures r == Load(text)
    ensures if Utf8Length(text) > 0x10_0000 then r == Err(TooLarge) else Reads(SplitLines(text), r)
  {
    if Utf8Length(text) > MAX_TOKENS_FILE_BYTES {
      return Err(TooLarge);
    }
    r := ParseTokens(text);
  }

  // What is printed is read back.

  lemma PrintedLineIsOneLine(d: seq<Byte>, handle: string, role: string)
    requires IsDigest(d) && HandleOk(handle) && RoleOk(role)
    ensures OneLine(PrintLine(d, handle, role))
  {
    DigestFieldRoundTrip(d);
    var line := PrintLine(d, handle, role);
    forall c | c in line
      ensures !IsBreak(c)
    {
      assert c in DigestField(d) || c == ' ' || c in handle || c in role;
    }
  }

  /** A stripped line of three good fields parses to its entry. */
  lemma GoodFieldsParse(line: string, fields: seq<string>, number: nat)
    requires line != [] && line[0] != '#' && Strip(line) == line
    requires Fields(line) == fields && |fields| == 3
    requires DigestOk(fields[0]) && HandleOk(fields[1]) && RoleOk(fields[2])
    ensures ParseLine(line, number) == Parsed(Entry(DigestOf(fields[0]), fields[1], fields[2]))
  {
  }

  lemma PartsAreWords(d: seq<Byte>, handle: string, role: string)
    requires IsDigest(d) && HandleOk(handle) && RoleOk(role)
    ensures Word(DigestField(d)) && Word(handle) && Word(role)
  {
    DigestFieldRoundTrip(d);
  }

  lemma PrintedLineParses(d: seq<Byte>, handle: string, role: string, number: nat)
    requires IsDigest(d) && HandleOk(handle) && RoleOk(role)
    ensures ParseLine(PrintLine(d, handle, role), number) == Parsed(Entry(d, handle, role))
  {
    DigestFieldRoundTrip(d);
    PartsAreWords(d, handle, role);
    ThreeFields(DigestField(d), handle, role);
    assert PrintLine(d, handle, role)[0] == 's';
    GoodFieldsParse(PrintLine(d, handle, role), [DigestField(d), handle, role], number);
  }

  /** A blank line in front changes nothing but line numbers. */
  lemma BlankLineParses(lines: seq<string>)
    ensures ParseLines(lines + [""]) == ParseLines(lines)
  {
    assert (lines + [""])[..|lines|] == lines;
  }

  /** The lines of the appended file: those of the old one, perhaps a blank one, and the new line. */
  lemma AppendedLines(text: string, line: string)
    requires OneLine(line)
    ensures SplitLines(Appended(text, line)) == SplitLines(text) + [line] ||
            SplitLines(Appended(text, line)) == SplitLines(text) + ["", line]
  {
    var ended := if text == [] || text[|text| - 1] == '\n' then text else text + "\n";
    assert Appended(text, line) == ended + (line + "\n");
    SplitNewline(text);
    SplitAppend(ended, line + "\n");
    SplitOneLine(line);
    assert SplitLines(Appended(text, line)) == SplitLines(ended) + [line];
    assert SplitLines(text) + [""] + [line] == SplitLines(text) + ["", line];
  }

  /**
   After any accepted content, ended by a newline or not, the appended file parses to the old entries
   followed by exactly the new one; it is refused, as a duplicate, exactly when the digest is listed.
   */
  lemma AppendedFileParses(text: string, d: seq<Byte>, handle: string, role: string)
    requires Parse(text).Ok? && IsDigest(d) && EntryLine(d, handle, role).Some?
    ensures
      var entries, after := Parse(text).value, Parse(Appended(text, EntryLine(d, handle, role).value));
      if Listed(entries, d) then after.Err? && after.error.DuplicateDigest? else after == Ok(entries + [Entry(d, handle, role)])
  {
    PrintedLineIsOneLine(d, handle, role);
    AppendedLines(text, PrintLine(d, handle, role));
    ParseAppendedLines(SplitLines(text), SplitLines(Appended(text, PrintLine(d, handle, role))), d, handle, role);
  }

  // The same of whole files, with the size limit.

  lemma {:induction false} Utf8Append(a: string, b: string)
    ensures Utf8Length(a + b) == Utf8Length(a) + Utf8Length(b)
  {
    if b == [] {
      assert a + b == a;
    } else {
      Utf8Append(a, b[..|b| - 1]);
      assert (a + b)[..|a + b| - 1] == a + b[..|b| - 1];
    }
  }

  lemma {:induction false} AsciiLength(s: string)
    requires forall i :: 0 <= i < |s| ==> s[i] as int < 0x80
    ensures Utf8Length(s) == |s|
  {
    if s != [] {
      AsciiLength(s[..|s| - 1]);
    }
  }

  lemma PrintedLineIsAscii(d: seq<Byte>, handle: string, role: string)
    requires IsDigest(d) && HandleOk(handle) && RoleOk(role)
    ensures Utf8Length(PrintLine(d, handle, role)) == |PrintLine(d, handle, role)| == 73 + |handle| + |role|
  {
    DigestFieldRoundTrip(d);
    var line := PrintLine(d, handle, role);
    forall i | 0 <= i < |line|
      ensures line[i] as int < 0x80
    {
      var c := line[i];
      assert c in DIGEST_PREFIX || c in Hex(d) || c == ' ' || c in handle || c in role;
    }
    AsciiLength(line);
  }

  /** The bytes of the appended file. */
  function AppendedSize(text: string, handle: string, role: string): nat {
    Utf8Length(text) + (if text == [] || text[|text| - 1] == '\n' then 0 else 1) + 73 + |handle| + |role| + 1
  }

  lemma AppendedSizeIs(text: string, d: seq<Byte>, handle: string, role: string)
    requires IsDigest(d) && HandleOk(handle) && RoleOk(role)
    ensures Utf8Length(Appended(text, PrintLine(d, handle, role))) == AppendedSize(text, handle, role)
  {
    var line := PrintLine(d, handle, role);
    var prefix: string := if text == [] || text[|text| - 1] == '\n' then [] else "\n";
    PrintedLineIsAscii(d, handle, role);
    AsciiLength(prefix);
    AsciiLength("\n");
    Utf8Append(text, prefix);
    Utf8Append(text + prefix, line);
    Utf8Append(text + prefix + line, "\n");
  }

  lemma NoFileLoads()
    ensures Load([]) == Ok([])
  {
  }

  /**
   What `_append_line` leaves of a file that loads, or of none, loads, and then holds exactly one entry more, if and only if the digest is new and
   the file stays within the size limit. Otherwise every later load refuses it, and so does every later append.
   */
  lemma AppendedFileLoads(file: Option<string>, d: seq<Byte>, handle: string, role: string)
    requires (file.Some? ==> Load(file.value).Ok?) && IsDigest(d) && EntryLine(d, handle, role).Some?
    ensures
      var text: string := if file.Some? then file.value else [];
      var after := Load(Appended(text, EntryLine(d, handle, role).value));
      Load(text).Ok? &&
      if AppendedSize(text, handle, role) > MAX_TOKENS_FILE_BYTES then after == Err(TooLarge)
      else if Listed(Load(text).value, d) then after.Err? && after.error.DuplicateDigest?
      else after == Ok(Load(text).value + [Entry(d, handle, role)])
  {
    NoFileLoads();
    var text: string := if file.Some? then file.value else [];
    AppendedFileParses(text, d, handle, role);
    AppendedSizeIs(text, d, handle, role);
  }

  lemma ParseAppendedLines(lines: seq<string>, after: seq<string>, d: seq<Byte>, handle: string, role: string)
    requires ParseLines(lines).Ok? && IsDigest(d) && HandleOk(handle) && RoleOk(role)
    requires after == lines + [PrintLine(d, handle, role)] || after == lines + ["", PrintLine(d, handle, role)]
    ensures
      var entries, now := ParseLines(lines).value, ParseLines(after);
      if Listed(entries, d) then now.Err? && now.error.DuplicateDigest? else now == Ok(entries + [Entry(d, handle, role)])
  {
    ParseOneMore(lines, d, handle, role);
    if after != lines + [PrintLine(d, handle, role)] {
      BlankLineParses(lines);
      ParseOneMore(lines + [""], d, handle, role);
      assert lines + [""] + [PrintLine(d, handle, role)] == after;
    }
  }

  lemma ParseOneMore(lines: seq<string>, d: seq<Byte>, handle: string, role: string)
    requires ParseLines(lines).Ok? && IsDigest(d) && HandleOk(handle) && RoleOk(role)
    ensures
      var entries, after := ParseLines(lines).value, ParseLines(lines + [PrintLine(d, handle, role)]);
      if Listed(entries, d) then after.Err? && after.error.DuplicateDigest? else after == Ok(entries + [Entry(d, handle, role)])
  {
    var line := PrintLine(d, handle, role);
    var more := lines + [line];
    assert more[..|more| - 1] == lines && more[|more| - 1] == line;
    PrintedLineParses(d, handle, role, |more|);
  }
}
