/** Python's string notions that the text formats rest on: ordering, white space and line boundaries. */
module PyText {
  import opened Sorting

  /** Code-point lexicographic `a <= b`. */
  predicate StrLe(a: string, b: string) {
    if a == [] then true
    else if b == [] then false
    else a[0] < b[0] || (a[0] == b[0] && StrLe(a[1..], b[1..]))
  }

  predicate StrLt(a: string, b: string) {
    StrLe(a, b) && a != b
  }

  lemma {:induction false} StrLeTotal(a: string, b: string)
    ensures StrLe(a, b) || StrLe(b, a)
    ensures StrLe(a, b) && StrLe(b, a) ==> a == b
  {
    if a != [] && b != [] {
      StrLeTotal(a[1..], b[1..]);
      assert a == [a[0]] + a[1..] && b == [b[0]] + b[1..];
    }
  }

  lemma {:induction false} StrLeTransitive(a: string, b: string, c: string)
    requires StrLe(a, b) && StrLe(b, c)
    ensures StrLe(a, c)
  {
    if a != [] && a[0] == b[0] && b[0] == c[0] {
      StrLeTransitive(a[1..], b[1..], c[1..]);
    }
  }

  lemma StrLeIsOrder()
    ensures TotalPreorder(StrLe)
    ensures forall a, b :: StrLe(a, b) && StrLe(b, a) ==> a == b
  {
    forall a, b
      ensures StrLe(a, b) || StrLe(b, a)
      ensures StrLe(a, b) && StrLe(b, a) ==> a == b
    {
      StrLeTotal(a, b);
    }
    forall a, b, c | StrLe(a, b) && StrLe(b, c)
      ensures StrLe(a, c)
    {
      StrLeTransitive(a, b, c);
    }
  }

  /** `a` is a proper beginning of `b`, or smaller in the first character that differs. */
  ghost predicate Below(a: string, b: string) {
    exists k :: BelowAt(a, b, k)
  }

  ghost predicate BelowAt(a: string, b: string, k: nat) {
    k <= |a| && k < |b| && a[..k] == b[..k] && (k == |a| || a[k] < b[k])
  }

  lemma SamePrefix(a: string, b: string, k: nat)
    requires k <= |a| && k <= |b| && a[..k] == b[..k]
    ensures k > 0 ==> a[0] == b[0]
  {
    assert k > 0 ==> a[..k][0] == b[..k][0];
  }

  lemma {:induction false} StrLtExact(a: string, b: string)
    ensures StrLt(a, b) <==> Below(a, b)
  {
    if a == [] || b == [] || a[0] != b[0] {
      assert StrLt(a, b) ==> BelowAt(a, b, 0);
      if k: nat :| BelowAt(a, b, k) {
        SamePrefix(a, b, k);
      }
    } else {
      var x, y := a[1..], b[1..];
      assert a == [a[0]] + x && b == [b[0]] + y;
      StrLtExact(x, y);
      if k: nat :| BelowAt(x, y, k) {
        assert a[..k + 1] == [a[0]] + x[..k] && b[..k + 1] == [b[0]] + y[..k];
        assert BelowAt(a, b, k + 1);
      }
      if k: nat :| BelowAt(a, b, k) {
        assert k > 0;
        assert x[..k - 1] == a[..k][1..] && y[..k - 1] == b[..k][1..];
        assert BelowAt(x, y, k - 1);
      }
    }
  }

  /** `str.splitlines` boundaries; `\r\n` counts as one. */
  predicate IsBreak(c: char) {
    '\n' <= c <= '\r' || '\U{1c}' <= c <= '\U{1e}' || c == '\U{85}' || c == '\U{2028}' || c == '\U{2029}'
  }

  /** `str.isspace`, which `strip` and `split` use. */
  predicate IsSpace(c: char) {
    IsBreak(c) || c == ' ' || c == '\t' || c == '\U{1f}' || c == '\U{a0}' || c == '\U{1680}' ||
    '\U{2000}' <= c <= '\U{200a}' || c == '\U{202f}' || c == '\U{205f}' || c == '\U{3000}'
  }

  predicate Blank(s: string) {
    forall c :: c in s ==> IsSpace(c)
  }

  /** `[A-Za-z0-9]`. */
  predicate IsAsciiAlnum(c: char) {
    '0' <= c <= '9' || 'A' <= c <= 'Z' || 'a' <= c <= 'z'
  }

  // Lines.

  /** The length of the first line, its terminator included. */
  function FirstLine(text: string): (n: nat)
    requires text != []
    ensures 1 <= n <= |text|
  {
    if text[0] == '\r' && |text| > 1 && text[1] == '\n' then 2
    else if IsBreak(text[0]) || |text| == 1 then 1
    else 1 + FirstLine(text[1..])
  }

  /** `text.splitlines(keepends=True)`. */
  function SplitKeep(text: string): seq<string> {
    if text == [] then [] else [text[..FirstLine(text)]] + SplitKeep(text[FirstLine(text)..])
  }

  /** A line without its terminator. */
  function Chomp(line: string): string {
    if |line| >= 2 && line[|line| - 2] == '\r' && line[|line| - 1] == '\n' then line[..|line| - 2]
    else if |line| >= 1 && IsBreak(line[|line| - 1]) then line[..|line| - 1]
    else line
  }

  predicate OneLine(line: string) {
    forall c :: c in line ==> !IsBreak(c)
  }

  /** `\r\n`, one other boundary, or nothing at the end of the text. */
  predicate Terminator(end: string) {
    end == "" || end == "\r\n" || (|end| == 1 && IsBreak(end[0]))
  }

  ghost predicate IsLine(line: string, body: string, end: string) {
    line == body + end && line != [] && OneLine(body) && Terminator(end)
  }

  ghost predicate LineShaped(line: string) {
    exists body, end :: IsLine(line, body, end)
  }

  /** The lines make up the text; each but the last is terminated, and `\r\n` is never torn apart. */
  ghost predicate SplitsInto(text: string, lines: seq<string>) {
    && Join(lines) == text
    && (forall i :: 0 <= i < |lines| ==> LineShaped(lines[i]))
    && (forall i :: 0 <= i < |lines| - 1 ==> Terminated(lines[i]) && Separate(lines[i], lines[i + 1]))
  }

  lemma {:induction false} FirstLineExact(text: string) returns (body: string, end: string)
    requires text != []
    ensures var n := FirstLine(text);
      IsLine(text[..n], body, end) && (n < |text| ==> Terminated(text[..n]) && Separate(text[..n], text[n..]))
  {
    var n := FirstLine(text);
    if text[0] == '\r' && |text| > 1 && text[1] == '\n' {
      body, end := "", "\r\n";
      assert text[..n] == body + end;
    } else if IsBreak(text[0]) {
      body, end := "", text[..1];
      assert text[..n] == body + end;
    } else if |text| == 1 {
      body, end := text, "";
      assert text[..n] == body + end;
    } else {
      body, end := FirstLineExact(text[1..]);
      assert text[..n] == [text[0]] + text[1..][..n - 1];
      assert text[n..] == text[1..][n - 1..];
      body := [text[0]] + body;
      assert text[..n] == body + end;
    }
  }

  /** `splitlines(keepends=True)` cuts after every boundary and nowhere else. */
  lemma {:induction false} SplitKeepExact(text: string)
    ensures SplitsInto(text, SplitKeep(text))
  {
    if text != [] {
      SplitKeepExact(text[FirstLine(text)..]);
      SplitKeepStep(text, text[..FirstLine(text)], text[FirstLine(text)..]);
    }
  }

  lemma SplitKeepStep(text: string, line: string, rest: string)
    requires text != [] && line == text[..FirstLine(text)] && rest == text[FirstLine(text)..]
    requires SplitsInto(rest, SplitKeep(rest))
    ensures SplitsInto(text, SplitKeep(text))
  {
    var body, end := FirstLineExact(text);
    MoreLines(line, rest, SplitKeep(rest), body, end);
    assert text == line + rest;
    assert SplitKeep(text) == [line] + SplitKeep(rest);
  }

  lemma MoreLines(line: string, rest: string, lines: seq<string>, body: string, end: string)
    requires SplitsInto(rest, lines) && IsLine(line, body, end)
    requires rest != [] ==> Terminated(line) && Separate(line, rest)
    ensures SplitsInto(line + rest, [line] + lines)
  {
    var all := [line] + lines;
    assert all[1..] == lines;
    assert LineShaped(line);
    if lines != [] {
      assert LineShaped(lines[0]);
      assert rest == lines[0] + Join(lines[1..]);
      assert rest[0] == lines[0][0];
    }
    forall i | 0 <= i < |all| - 1
      ensures Terminated(all[i]) && Separate(all[i], all[i + 1])
    {
      assert i > 0 ==> Terminated(lines[i - 1]) && Separate(lines[i - 1], lines[i]);
    }
  }

  /** `splitlines()` drops exactly the terminator. */
  lemma ChompExact(line: string, body: string, end: string)
    requires IsLine(line, body, end)
    ensures Chomp(line) == body
  {
    assert body != [] ==> body[|body| - 1] in body;
    assert line[..|body|] == body;
    if end == "" {
      assert line == body;
    }
  }

  function ChompAll(lines: seq<string>): (r: seq<string>)
    ensures |r| == |lines|
    ensures forall i :: 0 <= i < |r| ==> r[i] == Chomp(lines[i])
  {
    seq(|lines|, i requires 0 <= i < |lines| => Chomp(lines[i]))
  }

  /** `text.splitlines()`. */
  function SplitLines(text: string): seq<string> {
    ChompAll(SplitKeep(text))
  }

  function Join(lines: seq<string>): string {
    if lines == [] then [] else lines[0] + Join(lines[1..])
  }

  lemma {:induction false} JoinSplit(text: string)
    ensures Join(SplitKeep(text)) == text
  {
    if text != [] {
      JoinSplit(text[FirstLine(text)..]);
    }
  }

  /** A text that stops exactly where a line stops, so that more text starts a new line. */
  predicate Terminated(text: string) {
    text == [] || IsBreak(text[|text| - 1])
  }

  /** The last character of `a` and the first of `b` do not form one terminator. */
  predicate Separate(a: string, b: string) {
    !(a != [] && a[|a| - 1] == '\r' && b != [] && b[0] == '\n')
  }

  lemma {:induction false} FirstLineOfAppend(a: string, b: string)
    requires a != [] && Terminated(a) && Separate(a, b)
    ensures FirstLine(a + b) == FirstLine(a)
  {
    if |a| > 1 && !IsBreak(a[0]) {
      assert (a + b)[1..] == a[1..] + b;
      FirstLineOfAppend(a[1..], b);
    } else if |a| == 1 {
      assert (a + b)[0] == a[0];
    }
  }

  /** Splitting distributes over text added after a terminated text. */
  lemma {:induction false} SplitAppend(a: string, b: string)
    requires Terminated(a) && Separate(a, b)
    ensures SplitKeep(a + b) == SplitKeep(a) + SplitKeep(b)
    decreases |a|
  {
    if a == [] {
      assert a + b == b;
    } else {
      var n := FirstLine(a);
      FirstLineOfAppend(a, b);
      assert (a + b)[..n] == a[..n] && (a + b)[n..] == a[n..] + b;
      SplitAppend(a[n..], b);
    }
  }

  lemma {:induction false} FirstLineOfOne(line: string, end: char)
    requires OneLine(line) && IsBreak(end)
    ensures FirstLine(line + [end]) == |line| + 1
  {
    if line != [] {
      assert line[0] in line;
      assert (line + [end])[1..] == line[1..] + [end];
      FirstLineOfOne(line[1..], end);
    }
  }

  /** A line and its newline are one line. */
  lemma SplitOneLine(line: string)
    requires OneLine(line)
    ensures SplitKeep(line + "\n") == [line + "\n"]
    ensures SplitLines(line + "\n") == [line]
  {
    FirstLineOfOne(line, '\n');
    var text := line + "\n";
    assert text[..|text|] == text && text[|text|..] == [];
    assert line != [] ==> line[|line| - 1] in line;
    assert Chomp(text) == line;
  }

  /** A newline after unterminated text ends its last line; after another terminator it adds a blank line. */
  lemma {:induction false} SplitNewline(text: string)
    ensures SplitLines(text + "\n") == SplitLines(text) || SplitLines(text + "\n") == SplitLines(text) + [""]
    decreases |text|
  {
    if text == [] {
      assert text + "\n" == [] + "\n";
      SplitOneLine([]);
    } else {
      var n := FirstLine(text);
      FirstLineNewline(text);
      if n < |text| {
        var head, rest := text[..n], text[n..];
        assert head + rest == text && head + (rest + "\n") == text + "\n";
        NewlineAfterMore(head, rest);
        SplitNewline(rest);
      } else if FirstLine(text + "\n") == n {
        NewlineAddsLine(text);
      } else {
        NewlineJoinsLine(text);
      }
    }
  }

  lemma SplitAt(head: string, rest: string)
    requires head != [] && FirstLine(head + rest) == |head|
    ensures SplitLines(head + rest) == [Chomp(head)] + SplitLines(rest)
  {
    var text := head + rest;
    assert text[..|head|] == head && text[|head|..] == rest;
  }

  lemma {:induction false} FirstLineNewline(text: string)
    requires text != []
    ensures var n, m := FirstLine(text), FirstLine(text + "\n");
      if n < |text| then m == n
      else if text[|text| - 1] == '\r' || !IsBreak(text[|text| - 1]) then m == n + 1
      else m == n
    decreases |text|
  {
    if |text| > 1 && !IsBreak(text[0]) {
      assert (text + "\n")[1..] == text[1..] + "\n";
      FirstLineNewline(text[1..]);
    } else if |text| == 1 {
      assert text + "\n" == [text[0], '\n'];
    }
  }

  lemma ChompNewline(text: string)
    requires text != [] && (!IsBreak(text[|text| - 1]) || text[|text| - 1] == '\r')
    ensures Chomp(text + "\n") == Chomp(text)
  {
    var whole := text + "\n";
    assert whole[|whole| - 1] == '\n' && whole[|whole| - 2] == text[|text| - 1];
    assert whole[..|text|] == text;
    assert whole[..|text| - 1] == text[..|text| - 1];
  }

  /** More than one line: the first is the same with and without the newline. */
  lemma NewlineAfterMore(head: string, rest: string)
    requires head != [] && rest != [] && FirstLine(head + rest) == |head| && FirstLine(head + (rest + "\n")) == |head|
    ensures SplitLines(head + (rest + "\n")) == [Chomp(head)] + SplitLines(rest + "\n")
    ensures SplitLines(head + rest) == [Chomp(head)] + SplitLines(rest)
  {
    SplitAt(head, rest);
    SplitAt(head, rest + "\n");
  }

  lemma LastLine(text: string)
    requires text != [] && FirstLine(text) == |text|
    ensures SplitLines(text) == [Chomp(text)]
  {
    assert text + [] == text;
    SplitAt(text, []);
  }

  /** One unterminated line, or one ending in `\r`, takes the newline as its terminator. */
  lemma NewlineJoinsLine(text: string)
    requires text != [] && FirstLine(text) == |text| && FirstLine(text + "\n") == |text| + 1
    requires !IsBreak(text[|text| - 1]) || text[|text| - 1] == '\r'
    ensures SplitLines(text + "\n") == SplitLines(text)
  {
    LastLine(text);
    LastLine(text + "\n");
    ChompNewline(text);
  }

  /** After any other terminator the newline is a line of its own. */
  lemma NewlineAddsLine(text: string)
    requires text != [] && FirstLine(text) == |text| && FirstLine(text + "\n") == |text|
    ensures SplitLines(text + "\n") == SplitLines(text) + [""]
  {
    LastLine(text);
    SplitAt(text, "\n");
    SplitOneLine([]);
    assert [] + "\n" == "\n";
  }
}
