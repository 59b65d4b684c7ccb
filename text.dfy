/** Text primitives the ledger relies on: character classes, searching,
    strings.Split/strings.Join on ".", and the line structure that
    bufio.Reader.ReadLine reads and fmt.Fprintln writes.
    A character of a string stands for one byte of the file. */
module Text {

  predicate IsDigit(c: char) { '0' <= c <= '9' }

  predicate AllDigits(s: string) { forall k :: 0 <= k < |s| ==> IsDigit(s[k]) }

  /** Position of the first `c` in `s`, or `|s|` when `s` holds none. */
  function IndexOf(s: string, c: char): (k: nat)
    ensures k <= |s|
    ensures k < |s| ==> s[k] == c
    ensures c !in s[..k]
  {
    if s == [] then 0
    else if s[0] == c then 0
    else
      var k := 1 + IndexOf(s[1..], c);
      assert s[..k] == [s[0]] + s[1..][..k - 1];
      k
  }

  lemma IndexOfSplice(a: string, c: char, b: string)
    requires c !in a
    ensures IndexOf(a + [c] + b, c) == |a|
  {
    var s := a + [c] + b;
    assert s[|a|] == c;
    assert forall i :: 0 <= i < |a| ==> s[i] == a[i];
  }

  // ---------------------------------------------------------------------
  // strings.Split(s, ".") and strings.Join(parts, ".")

  /** The pieces of `s` between its dots; `Split("")` is `[""]`. */
  function Split(s: string): (parts: seq<string>)
    ensures |parts| >= 1
    ensures forall i :: 0 <= i < |parts| ==> '.' !in parts[i]
    decreases |s|
  {
    var k := IndexOf(s, '.');
    if k == |s| then [s] else [s[..k]] + Split(s[k + 1..])
  }

  function Join(parts: seq<string>): string
    requires |parts| >= 1
  {
    if |parts| == 1 then parts[0] else parts[0] + "." + Join(parts[1..])
  }

  /** The first piece of a split ends at the first dot. */
  lemma SplitCons(a: string, b: string)
    requires '.' !in a
    ensures Split(a + "." + b) == [a] + Split(b)
  {
    var s := a + "." + b;
    IndexOfSplice(a, '.', b);
    assert s[..|a|] == a;
    assert s[|a| + 1..] == b;
  }

  /** Splitting a join of dot-free pieces gives the pieces back. */
  lemma {:induction false} SplitJoin(parts: seq<string>)
    requires |parts| >= 1
    requires forall i :: 0 <= i < |parts| ==> '.' !in parts[i]
    ensures Split(Join(parts)) == parts
  {
    if |parts| > 1 {
      var tail := parts[1..];
      assert Join(parts) == parts[0] + "." + Join(tail);
      assert forall i :: 0 <= i < |tail| ==> '.' !in tail[i] by {
        forall i | 0 <= i < |tail| ensures '.' !in tail[i] { assert tail[i] == parts[i + 1]; }
      }
      SplitJoin(tail);
      SplitCons(parts[0], Join(tail));
      assert parts == [parts[0]] + tail;
    }
  }

  /** Joining the pieces of a split gives the text back. */
  lemma {:induction false} JoinSplit(s: string)
    ensures Join(Split(s)) == s
    decreases |s|
  {
    var k := IndexOf(s, '.');
    if k < |s| {
      JoinSplit(s[k + 1..]);
      var parts := Split(s);
      assert parts[1..] == Split(s[k + 1..]);
      assert s == s[..k] + "." + s[k + 1..];
    }
  }

  /** Splitting adds no character that was not in the text. */
  lemma {:induction false} SplitChars(s: string, c: char)
    requires c !in s
    ensures forall i :: 0 <= i < |Split(s)| ==> c !in Split(s)[i]
    decreases |s|
  {
    var k := IndexOf(s, '.');
    if k < |s| {
      var rest := s[k + 1..];
      assert c !in rest by { forall i | 0 <= i < |rest| ensures rest[i] != c { assert rest[i] == s[k + 1 + i]; } }
      assert c !in s[..k] by { forall i | 0 <= i < k ensures s[..k][i] != c { assert s[..k][i] == s[i]; } }
      SplitChars(rest, c);
    }
  }

  /** Joining adds no character but the dots. */
  lemma {:induction false} JoinChars(parts: seq<string>, c: char)
    requires |parts| >= 1 && c != '.'
    requires forall i :: 0 <= i < |parts| ==> c !in parts[i]
    ensures c !in Join(parts)
  {
    if |parts| > 1 {
      JoinChars(parts[1..], c);
    }
  }

  // ---------------------------------------------------------------------
  // Lines: bufio.Reader.ReadLine on the way in, fmt.Fprintln on the way out

  /** One ReadLine call on the unread text `rest`: the line without its
      terminator ("\n", or "\r\n" whose "\r" is dropped too) and the text
      after it. A last line without "\n" is returned as it stands. */
  function NextLine(rest: string): (r: (string, string))
    requires rest != []
    ensures |r.1| < |rest|
  {
    var k := IndexOf(rest, '\n');
    if k == |rest| then (rest, [])
    else if k > 0 && rest[k - 1] == '\r' then (rest[..k - 1], rest[k + 1..])
    else (rest[..k], rest[k + 1..])
  }

  /** The lines successive ReadLine calls return before io.EOF. */
  function Lines(text: string): seq<string>
    decreases |text|
  {
    if text == [] then [] else [NextLine(text).0] + Lines(NextLine(text).1)
  }

  /** What `fmt.Fprintln(writer, line)` writes for each line in turn. */
  function Unlines(lines: seq<string>): string
  {
    if lines == [] then "" else lines[0] + "\n" + Unlines(lines[1..])
  }

  /** A line that ReadLine gives back unchanged once it is written with "\n". */
  predicate Rereadable(line: string)
  {
    '\n' !in line && (line == [] || line[|line| - 1] != '\r')
  }

  lemma UnlinesAppend(lines: seq<string>, line: string)
    ensures Unlines(lines + [line]) == Unlines(lines) + line + "\n"
  {
    if lines != [] {
      assert (lines + [line])[1..] == lines[1..] + [line];
      UnlinesAppend(lines[1..], line);
    }
  }

  /** Reading a line written with "\n" in front of more text. */
  lemma LinesCons(line: string, text: string)
    requires Rereadable(line)
    ensures Lines(line + "\n" + text) == [line] + Lines(text)
  {
    var s := line + "\n" + text;
    IndexOfSplice(line, '\n', text);
    assert s[..|line|] == line;
    assert s[|line| + 1..] == text;
  }

  /** Reading back what was written line by line gives the same lines. */
  lemma {:induction false} LinesOfUnlines(lines: seq<string>)
    requires forall i :: 0 <= i < |lines| ==> Rereadable(lines[i])
    ensures Lines(Unlines(lines)) == lines
  {
    if lines != [] {
      LinesCons(lines[0], Unlines(lines[1..]));
      LinesOfUnlines(lines[1..]);
    }
  }

  /** A text without "\r" whose last line is terminated is rewritten byte
      for byte when its lines are written back. */
  lemma {:induction false} UnlinesOfLines(text: string)
    requires '\r' !in text
    requires text == [] || text[|text| - 1] == '\n'
    ensures Unlines(Lines(text)) == text
    decreases |text|
  {
    if text != [] {
      var k := IndexOf(text, '\n');
      var line, rest := text[..k], text[k + 1..];
      assert text == line + "\n" + rest;
      assert '\r' !in line && '\r' !in rest by {
        forall i | 0 <= i < |line| ensures line[i] != '\r' { assert line[i] == text[i]; }
        forall i | 0 <= i < |rest| ensures rest[i] != '\r' { assert rest[i] == text[k + 1 + i]; }
      }
      assert rest == [] || rest[|rest| - 1] == '\n';
      LinesCons(line, rest);
      UnlinesOfLines(rest);
      assert [line] + Lines(rest) != [] && ([line] + Lines(rest))[1..] == Lines(rest);
    }
  }

  /** What ReadLine returns never holds "\n", nor "\r" unless the text does. */
  lemma {:induction false} LinesChars(text: string)
    ensures forall i :: 0 <= i < |Lines(text)| ==> '\n' !in Lines(text)[i]
    ensures '\r' !in text ==> forall i :: 0 <= i < |Lines(text)| ==> Rereadable(Lines(text)[i]) && '\r' !in Lines(text)[i]
    decreases |text|
  {
    if text != [] {
      var (line, rest) := NextLine(text);
      var k := IndexOf(text, '\n');
      assert '\n' !in line by {
        if k < |text| && k > 0 && text[k - 1] == '\r' {
          assert line == text[..k][..k - 1];
        }
      }
      assert '\r' !in text ==> '\r' !in rest by {
        if '\r' !in text {
          forall i | 0 <= i < |rest| ensures rest[i] != '\r' { assert rest[i] in text; }
        }
      }
      assert line <= text;
      assert '\r' !in text ==> '\r' !in line by {
        if '\r' !in text {
          forall i | 0 <= i < |line| ensures line[i] != '\r' { assert line[i] == text[i]; }
        }
      }
      LinesChars(rest);
      assert Lines(text) == [line] + Lines(rest);
    }
  }

  /** Writing lines adds no character but "\n". */
  lemma {:induction false} UnlinesChars(lines: seq<string>, c: char)
    requires c != '\n'
    requires forall i :: 0 <= i < |lines| ==> c !in lines[i]
    ensures c !in Unlines(lines)
  {
    if lines != [] {
      UnlinesChars(lines[1..], c);
      assert c !in lines[0];
    }
  }

  /** What Fprintln writes ends with "\n" unless nothing was written. */
  lemma UnlinesEnd(lines: seq<string>)
    ensures Unlines(lines) == [] || Unlines(lines)[|Unlines(lines)| - 1] == '\n'
  {
    if lines != [] {
      UnlinesAppend(lines[..|lines| - 1], lines[|lines| - 1]);
      assert lines[..|lines| - 1] + [lines[|lines| - 1]] == lines;
    }
  }
}
