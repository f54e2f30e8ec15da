/**
 * `QueryUtils.readFromStream`: the whole response body as one string, read
 * line by line with `BufferedReader.readLine` and appended without the line
 * terminators. The UTF-8 decoding of the bytes is left to the stream: the
 * input here is already a sequence of characters.
 */
module StreamText {
  import opened Optional

  /** The characters that end a line for `readLine`: line feed and carriage return. */
  predicate IsTerminator(c: char)
  {
    c == '\n' || c == '\r'
  }

  /** `data` with every line terminator character removed. */
  function Unterminated(data: seq<char>): (r: string)
    ensures |r| <= |data|
    ensures forall i :: 0 <= i < |r| ==> !IsTerminator(r[i])
  {
    if data == [] then []
    else (if IsTerminator(data[0]) then [] else [data[0]]) + Unterminated(data[1..])
  }

  lemma {:induction false} UnterminatedAppend(a: seq<char>, b: seq<char>)
    ensures Unterminated(a + b) == Unterminated(a) + Unterminated(b)
  {
    if a != [] {
      assert (a + b)[1..] == a[1..] + b;
      UnterminatedAppend(a[1..], b);
    } else {
      assert a + b == b;
    }
  }

  lemma {:induction false} UnterminatedPlain(a: seq<char>)
    requires forall i :: 0 <= i < |a| ==> !IsTerminator(a[i])
    ensures Unterminated(a) == a
  {
    if a != [] {
      UnterminatedPlain(a[1..]);
    }
  }

  /** The first line terminator at or after `pos`, or the end of `data`. */
  function LineEnd(data: seq<char>, pos: nat): (e: nat)
    requires pos <= |data|
    ensures pos <= e <= |data|
    ensures forall i :: pos <= i < e ==> !IsTerminator(data[i])
    ensures e < |data| ==> IsTerminator(data[e])
    decreases |data| - pos
  {
    if pos == |data| || IsTerminator(data[pos]) then pos else LineEnd(data, pos + 1)
  }

  /**
   * `BufferedReader.readLine` at position `pos`: None (Java's null) at the end
   * of the stream, otherwise the line up to the next "\n", "\r" or "\r\n",
   * without it, and the position after the terminator.
   */
  function ReadLine(data: seq<char>, pos: nat): (r: Option<(string, nat)>)
    requires pos <= |data|
    ensures r.None? <==> pos == |data|
    ensures r.Some? ==> pos < r.value.1 <= |data|
    ensures r.Some? ==> forall i :: 0 <= i < |r.value.0| ==> !IsTerminator(r.value.0[i])
    ensures r.Some? ==> r.value.0 == data[pos..LineEnd(data, pos)]
    ensures r.Some? ==>
      var e := LineEnd(data, pos);
      r.value.1 == if e == |data| then e
                   else if data[e] == '\r' && e + 1 < |data| && data[e + 1] == '\n' then e + 2
                   else e + 1
  {
    if pos == |data| then None
    else
      var e := LineEnd(data, pos);
      var next :=
        if e == |data| then e
        else if data[e] == '\r' && e + 1 < |data| && data[e + 1] == '\n' then e + 2
        else e + 1;
      Some((data[pos..e], next))
  }

  /** What one `readLine` consumes is its line plus terminators only. */
  lemma ReadLineConsumes(data: seq<char>, pos: nat)
    requires pos < |data|
    ensures ReadLine(data, pos).value.0 + Unterminated(data[ReadLine(data, pos).value.1..]) ==
            Unterminated(data[pos..])
  {
    var e := LineEnd(data, pos);
    var next := ReadLine(data, pos).value.1;
    assert data[pos..] == data[pos..e] + data[e..next] + data[next..];
    UnterminatedAppend(data[pos..e] + data[e..next], data[next..]);
    UnterminatedAppend(data[pos..e], data[e..next]);
    UnterminatedPlain(data[pos..e]);
    if e < next {
      assert Unterminated(data[e..next]) == [] by {
        if next == e + 2 {
          assert data[e..next][1..][1..] == [];
        } else {
          assert data[e..next][1..] == [];
        }
      }
    }
  }

  /** The lines `readLine` returns from `pos` until it returns null. */
  function Lines(data: seq<char>, pos: nat): (lines: seq<string>)
    requires pos <= |data|
    decreases |data| - pos
  {
    match ReadLine(data, pos)
    case None => []
    case Some((line, next)) => [line] + Lines(data, next)
  }

  function Concat(lines: seq<string>): string
  {
    if lines == [] then "" else lines[0] + Concat(lines[1..])
  }

  /** The outcome of `readFromStream`: "" for a null stream, else every line joined without terminators. */
  function StreamContent(inputStream: Option<seq<char>>): string
  {
    match inputStream
    case None => ""
    case Some(data) => Unterminated(data)
  }

  /** Joining the lines `readLine` yields drops exactly the terminator characters. */
  lemma {:induction false} ConcatLines(data: seq<char>, pos: nat)
    requires pos <= |data|
    ensures Concat(Lines(data, pos)) == Unterminated(data[pos..])
    decreases |data| - pos
  {
    if pos < |data| {
      var next := ReadLine(data, pos).value.1;
      var lines := Lines(data, pos);
      assert lines[1..] == Lines(data, next);
      ConcatLines(data, next);
      ReadLineConsumes(data, pos);
    }
  }

  /** `readFromStream(inputStream)` */
  method ReadFromStream(inputStream: Option<seq<char>>) returns (output: string)
    ensures output == StreamContent(inputStream)
    ensures inputStream.Some? ==> output == Concat(Lines(inputStream.value, 0))
  {
    output := "";
    if inputStream.Some? {
      var data := inputStream.value;
      var pos := 0;
      var line := ReadLine(data, pos);
      while line.Some?
        invariant pos <= |data|
        invariant line == ReadLine(data, pos)
        invariant output + Unterminated(data[pos..]) == Unterminated(data)
        decreases |data| - pos
      {
        var text, next := line.value.0, line.value.1;
        ReadLineConsumes(data, pos);
        assert (output + text) + Unterminated(data[next..]) == output + Unterminated(data[pos..]);
        output := output + text;
        pos := next;
        line := ReadLine(data, pos);
      }
      assert data[pos..] == [] && data[0..] == data;
      ConcatLines(data, 0);
    }
  }

  /** A Windows line ending between two lines is dropped; so is a final Unix one. */
  lemma ReadFromStreamExample()
    ensures StreamContent(Some("a\r\nb\n")) == "ab"
  {
    var body := "a\r\nb\n";
    assert body == "a" + "\r\n" + "b\n";
    UnterminatedAppend("a" + "\r\n", "b\n");
    UnterminatedAppend("a", "\r\n");
    assert Unterminated("\r\n") == [] by {
      assert "\r\n"[1..] == "\n";
      assert "\n"[1..] == [];
    }
    assert Unterminated("b\n") == "b" by {
      assert "b\n"[1..] == "\n";
      assert "\n"[1..] == [];
    }
  }
}
