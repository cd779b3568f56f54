// Newline-delimited JSON arrives in chunks cut anywhere; the messages must not
// depend on where.
module Ndjson {
  import opened Options

  // ------------------------------------------------------------ lines

  /** The index of the first line break, or the length of a text without one. */
  function FirstBreak(text: string): (k: nat)
    ensures k <= |text| && forall i :: 0 <= i < k ==> text[i] != '\n'
    ensures k < |text| ==> text[k] == '\n'
  {
    if text == "" || text[0] == '\n' then 0 else 1 + FirstBreak(text[1..])
  }

  /** The pieces of a text between its line breaks; the last is what follows the last break. */
  function Pieces(text: string): (r: seq<string>)
    ensures r != []
    decreases |text|
  {
    var k := FirstBreak(text);
    if k == |text| then [text] else [text[..k]] + Pieces(text[k + 1..])
  }

  /** The same pieces with a line break between neighbours. */
  function Joined(pieces: seq<string>): string
    requires pieces != []
  {
    if |pieces| == 1 then pieces[0] else pieces[0] + "\n" + Joined(pieces[1..])
  }

  predicate Unbroken(pieces: seq<string>) {
    forall i :: 0 <= i < |pieces| ==> '\n' !in pieces[i]
  }

  /** Joining the pieces gives the text back, and no piece holds a line break. */
  lemma {:induction false} PiecesJoin(text: string)
    ensures Joined(Pieces(text)) == text && Unbroken(Pieces(text))
    decreases |text|
  {
    hide Pieces, Joined, Unbroken;
    var k := FirstBreak(text);
    if k < |text| {
      PiecesCut(text, k);
      PiecesJoin(text[k + 1..]);
      JoinedCons(text[..k], Pieces(text[k + 1..]));
    } else {
      NoBreak(text);
      JoinedOne(text);
    }
  }

  lemma PiecesCut(text: string, k: nat)
    requires k == FirstBreak(text) < |text|
    ensures Pieces(text) == [text[..k]] + Pieces(text[k + 1..]) && text == text[..k] + "\n" + text[k + 1..]
    ensures '\n' !in text[..k]
  {
    hide FirstBreak;
    CutAt(text, k);
    assert forall c :: c in text[..k] ==> exists i :: 0 <= i < k && c == text[i];
  }

  lemma CutAt(text: string, k: nat)
    requires k < |text| && text[k] == '\n'
    ensures text == text[..k] + "\n" + text[k + 1..]
  {
    assert text[k..] == "\n" + text[k + 1..];
  }

  lemma JoinedCons(line: string, pieces: seq<string>)
    requires pieces != []
    ensures Joined([line] + pieces) == line + "\n" + Joined(pieces)
    ensures '\n' !in line && Unbroken(pieces) ==> Unbroken([line] + pieces)
  {
    assert ([line] + pieces)[1..] == pieces;
  }

  lemma JoinedOne(text: string)
    ensures Joined([text]) == text && ('\n' !in text ==> Unbroken([text]))
  {
  }

  lemma CutAtBreak(line: string, rest: string)
    requires '\n' !in line
    ensures Pieces(line + "\n" + rest) == [line] + Pieces(rest)
  {
    var text, k := line + "\n" + rest, FirstBreak(line + "\n" + rest);
    assert text[|line|] == '\n';
    assert forall i :: 0 <= i < |line| ==> text[i] == line[i];
    assert k == |line|;
    assert text[..k] == line && text[k + 1..] == rest;
  }

  lemma NoBreak(text: string)
    requires '\n' !in text
    ensures FirstBreak(text) == |text| && Pieces(text) == [text]
  {
  }

  /** Nothing else does: the pieces are the only way to cut the text at its line breaks. */
  lemma {:induction false} PiecesUnique(pieces: seq<string>)
    requires pieces != [] && Unbroken(pieces)
    ensures Pieces(Joined(pieces)) == pieces
    decreases |pieces|
  {
    if |pieces| == 1 {
      NoBreak(pieces[0]);
    } else {
      PiecesUnique(pieces[1..]);
      CutAtBreak(pieces[0], Joined(pieces[1..]));
    }
  }

  function Init(pieces: seq<string>): seq<string>
    requires pieces != []
  {
    pieces[..|pieces| - 1]
  }

  function Last(pieces: seq<string>): string
    requires pieces != []
  {
    pieces[|pieces| - 1]
  }

  /** More text only changes the last piece. */
  lemma {:induction false} PiecesExtend(a: string, b: string)
    ensures Pieces(a + b) == Init(Pieces(a)) + Pieces(Last(Pieces(a)) + b)
    decreases |a|
  {
    hide Pieces;
    var k := FirstBreak(a);
    if k == |a| {
      NoBreak(a);
    } else {
      var line, tail := a[..k], a[k + 1..];
      assert a == line + "\n" + tail;
      assert a + b == line + "\n" + (tail + b);
      CutAtBreak(line, tail);
      CutAtBreak(line, tail + b);
      PiecesExtend(tail, b);
      InitLast(line, Pieces(tail));
    }
  }

  lemma InitLast(line: string, rest: seq<string>)
    requires rest != []
    ensures Init([line] + rest) == [line] + Init(rest) && Last([line] + rest) == Last(rest)
  {
  }

  // ------------------------------------------------------------ messages

  /** What one line stands for: nothing if it is blank or does not parse. */
  function Message<T>(trim: string -> string, parse: string -> Option<T>, line: string): seq<T> {
    var text := trim(line);
    if text == "" then [] else match parse(text) case None => [] case Some(m) => [m]
  }

  function Messages<T>(trim: string -> string, parse: string -> Option<T>, lines: seq<string>): seq<T> {
    if lines == [] then []
    else Messages(trim, parse, lines[..|lines| - 1]) + Message(trim, parse, lines[|lines| - 1])
  }

  lemma {:induction false} MessagesAppend<T>(trim: string -> string, parse: string -> Option<T>, a: seq<string>,
                                             b: seq<string>)
    ensures Messages(trim, parse, a + b) == Messages(trim, parse, a) + Messages(trim, parse, b)
  {
    hide Message, Messages;
    if b == [] {
      NoMessages(trim, parse);
      assert a + b == a;
    } else {
      MessagesAppend(trim, parse, a, b[..|b| - 1]);
      assert (a + b)[..|a + b| - 1] == a + b[..|b| - 1];
      LastLine(trim, parse, b);
      LastLine(trim, parse, a + b);
    }
  }

  lemma NoMessages<T>(trim: string -> string, parse: string -> Option<T>)
    ensures Messages(trim, parse, []) == []
  {
  }

  lemma LastLine<T>(trim: string -> string, parse: string -> Option<T>, pieces: seq<string>)
    requires pieces != []
    ensures Messages(trim, parse, pieces) == Messages(trim, parse, Init(pieces)) + Message(trim, parse, Last(pieces))
  {
  }

  function Concat(chunks: seq<string>): string {
    if chunks == [] then "" else Concat(chunks[..|chunks| - 1]) + chunks[|chunks| - 1]
  }

  /**
   * ndjson over the chunks of a response. `aborted(i)` is what the signal says
   * before read number i; `ended` is whether the stream was read to its end.
   */
  method Read<T>(trim: string -> string, parse: string -> Option<T>, chunks: seq<string>, aborted: nat -> bool)
    returns (messages: seq<T>, ended: bool, used: nat)
    ensures used <= |chunks| && (forall i :: 0 <= i < used ==> !aborted(i))
    ensures ended <==> used == |chunks| && !aborted(used)
    ensures !ended ==> aborted(used) && messages == Messages(trim, parse, Init(Pieces(Concat(chunks[..used]))))
    ensures ended ==> messages == Messages(trim, parse, Pieces(Concat(chunks)))
  {
    hide Pieces, Messages, Message, FirstBreak, Init, Last, Concat;
    var buffer := "";
    messages, used := [], 0;
    StartOfText(trim, parse, chunks);
    while true
      invariant used <= |chunks| && forall i :: 0 <= i < used ==> !aborted(i)
      invariant buffer == Last(Pieces(Concat(chunks[..used])))
      invariant messages == Messages(trim, parse, Init(Pieces(Concat(chunks[..used]))))
      decreases |chunks| - used
    {
      if aborted(used) { return messages, false, used; }
      if used == |chunks| { break; }
      ghost var text, whole := Concat(chunks[..used]), Concat(chunks[..used + 1]);
      ConcatNext(chunks, used);
      ChunkAdds(trim, parse, text, chunks[used]);
      buffer := buffer + chunks[used];
      var idx := FirstBreak(buffer);
      while idx != |buffer|
        invariant idx == FirstBreak(buffer)
        invariant Last(Pieces(buffer)) == Last(Pieces(whole))
        invariant messages + Messages(trim, parse, Init(Pieces(buffer))) == Messages(trim, parse, Init(Pieces(whole)))
        decreases |buffer|
      {
        assert buffer == buffer[..idx] + "\n" + buffer[idx + 1..];
        OneLine(trim, parse, buffer[..idx], buffer[idx + 1..]);
        messages := messages + Message(trim, parse, buffer[..idx]);
        buffer := buffer[idx + 1..];
        idx := FirstBreak(buffer);
      }
      OnlyLine(trim, parse, buffer);
      used := used + 1;
    }
    assert chunks[..used] == chunks;
    LastLine(trim, parse, Pieces(Concat(chunks)));
    messages := messages + Message(trim, parse, buffer);
    ended := true;
  }

  lemma StartOfText<T>(trim: string -> string, parse: string -> Option<T>, chunks: seq<string>)
    ensures Last(Pieces(Concat(chunks[..0]))) == "" && Messages(trim, parse, Init(Pieces(Concat(chunks[..0])))) == []
  {
    NoBreak("");
  }

  lemma ConcatNext(chunks: seq<string>, k: nat)
    requires k < |chunks|
    ensures Concat(chunks[..k + 1]) == Concat(chunks[..k]) + chunks[k]
  {
    assert chunks[..k + 1][..k] == chunks[..k];
  }

  /** A chunk settles the lines it ends; what was settled stays. */
  lemma ChunkAdds<T>(trim: string -> string, parse: string -> Option<T>, text: string, chunk: string)
    ensures var added := Pieces(Last(Pieces(text)) + chunk);
            && Last(Pieces(text + chunk)) == Last(added)
            && Messages(trim, parse, Init(Pieces(text + chunk)))
               == Messages(trim, parse, Init(Pieces(text))) + Messages(trim, parse, Init(added))
  {
    hide Pieces, Messages;
    PiecesExtend(text, chunk);
    var settled, added := Init(Pieces(text)), Pieces(Last(Pieces(text)) + chunk);
    MessagesAppend(trim, parse, settled, Init(added));
    assert Init(settled + added) == settled + Init(added);
  }

  lemma OnlyLine<T>(trim: string -> string, parse: string -> Option<T>, buffer: string)
    requires FirstBreak(buffer) == |buffer|
    ensures Last(Pieces(buffer)) == buffer && Messages(trim, parse, Init(Pieces(buffer))) == []
  {
    NoBreak(buffer);
  }

  /** A buffer with a line break gives the message of its first line, then those of the rest. */
  lemma OneLine<T>(trim: string -> string, parse: string -> Option<T>, line: string, tail: string)
    requires '\n' !in line
    ensures var pieces := Pieces(line + "\n" + tail);
            && Last(pieces) == Last(Pieces(tail))
            && Messages(trim, parse, Init(pieces))
               == Message(trim, parse, line) + Messages(trim, parse, Init(Pieces(tail)))
  {
    hide Message, Messages, Pieces, Init, Last;
    CutAtBreak(line, tail);
    InitLast(line, Pieces(tail));
    MessagesAppend(trim, parse, [line], Init(Pieces(tail)));
    OneMessage(trim, parse, line);
  }

  lemma OneMessage<T>(trim: string -> string, parse: string -> Option<T>, line: string)
    ensures Messages(trim, parse, [line]) == Message(trim, parse, line)
  {
    hide Message;
    assert [line][..0] == [];
  }

  // ------------------------------------------------------------ round trip

  /** A stream that writes each message on a line of its own. */
  function Written<T>(print_: T -> string, messages: seq<T>): string {
    if messages == [] then "" else print_(messages[0]) + "\n" + Written(print_, messages[1..])
  }

  /** A message that prints on one line and parses back. */
  predicate OneLiner<T(==)>(trim: string -> string, parse: string -> Option<T>, print_: T -> string, m: T) {
    '\n' !in print_(m) && trim(print_(m)) != "" && parse(trim(print_(m))) == Some(m)
  }

  /** What is written line by line is read back, in order. */
  lemma {:induction false} WrittenIsRead<T>(trim: string -> string, parse: string -> Option<T>, print_: T -> string,
                                            messages: seq<T>)
    requires trim("") == "" && forall m :: m in messages ==> OneLiner(trim, parse, print_, m)
    ensures Messages(trim, parse, Pieces(Written(print_, messages))) == messages
  {
    hide Messages, Pieces;
    if messages == [] {
      NoBreak("");
      OneMessage(trim, parse, "");
    } else {
      var m, tail := messages[0], Written(print_, messages[1..]);
      assert OneLiner(trim, parse, print_, m);
      CutAtBreak(print_(m), tail);
      WrittenIsRead(trim, parse, print_, messages[1..]);
      MessagesAppend(trim, parse, [print_(m)], Pieces(tail));
      OneMessage(trim, parse, print_(m));
    }
  }
}
