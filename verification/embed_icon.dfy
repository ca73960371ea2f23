/** The string-building part of the icon embedding script: an encoded icon
    becomes a Python bytes-literal assignment, with a line break before
    each character once the running line-length counter has reached 78
    (one less than `MAX_LINE_LENGTH`). Appending the text to the icon file
    is left to the caller. */
module IconEmbedding {

  const MAX_LINE_LENGTH: int := 79

  /** `n` blanks. */
  function Blanks(n: nat): (r: string)
    ensures |r| == n && forall k | 0 <= k < n :: r[k] == ' '
  {
    seq(n, _ => ' ')
  }

  /** The text that closes one line of the literal and opens the next:
      a closing quote, a newline, the indent, and `b"`. */
  function Break(spaces: nat): (r: string)
    ensures |r| == spaces + 4 && r[0] == '"'
  {
    "\"\n" + Blanks(spaces) + "b\""
  }

  /** The partial output and the running line-length counter. */
  datatype Writer = Writer(output: string, length: int)

  /** `"\n\n" + name + " = (b\""`. The counter starts at the length of this
      text, newlines included. */
  function Header(name: string): (r: string)
    ensures |r| == |name| + 8
  {
    "\n\n" + name + " = (" + "b\""
  }

  /** The continuation indent: `len(output) - 2` for the output
      `"\n\n" + name + " = ("` written so far, so continuation lines line
      up under the first `b"`. */
  function Indent(name: string): (r: nat)
    ensures r == |"\n\n" + name + " = ("| - 2
    ensures r + 4 == |Header(name)|
  {
    |name| + 4
  }

  /** One character of the icon string: a wrap first if the counter has
      reached 78, then the character. */
  function Put(w: Writer, spaces: nat, c: char): (r: Writer)
    ensures w.length >= MAX_LINE_LENGTH - 1 ==>
      r == Writer(w.output + Break(spaces) + [c], spaces + 3)
    ensures w.length < MAX_LINE_LENGTH - 1 ==>
      r == Writer(w.output + [c], w.length + 1)
  {
    if w.length >= MAX_LINE_LENGTH - 1 then Writer(w.output + Break(spaces) + [c], spaces + 2 + 1)
    else Writer(w.output + [c], w.length + 1)
  }

  /** The characters of `s`, in order: the script's character loop. It
      only appends, and every character adds at least itself. */
  function PutAll(w: Writer, spaces: nat, s: string): (r: Writer)
    ensures w.output <= r.output
    ensures |r.output| >= |w.output| + |s|
    decreases |s|
  {
    if |s| == 0 then w else PutAll(Put(w, spaces, s[0]), spaces, s[1..])
  }

  /** Closing the literal: a closing quote and `)` on the same line while
      the counter is below 78, otherwise on a fresh indented line. */
  function Finish(w: Writer, spaces: nat): (r: string)
    ensures w.length < MAX_LINE_LENGTH - 1 ==> r == w.output + "\")\n"
    ensures w.length >= MAX_LINE_LENGTH - 1 ==> r == w.output + "\"\n" + Blanks(spaces) + ")\n"
  {
    if w.length >= MAX_LINE_LENGTH - 1 then w.output + "\"\n" + Blanks(spaces) + ")\n"
    else w.output + "\")\n"
  }

  /** The text `append_string_to_icon_file` appends: the header, then the
      icon text, then a closing `")\n` (possibly on its own indented line),
      so it is at least header + icon + 3 long and ends in `)\n`. */
  function IconLiteral(name: string, icon: string): (out: string)
    ensures Header(name) <= out
    ensures |out| >= |Header(name)| + |icon| + 3
    ensures out[|out| - 2..] == ")\n"
  {
    var spaces := Indent(name);
    var w := Writer(Header(name), |name| + 8);
    PutAllExtends(w, spaces, icon);
    PutAllLength(w, spaces, icon);
    Finish(PutAll(w, spaces, icon), spaces)
  }

  // -------------------------------------------------------------- algebra

  /** `PutAll` only appends to the output. */
  lemma {:induction false} PutAllExtends(w: Writer, spaces: nat, s: string)
    ensures w.output <= PutAll(w, spaces, s).output
    decreases |s|
  {
    if |s| > 0 {
      var w1 := Put(w, spaces, s[0]);
      assert w.output <= w1.output;
      PutAllExtends(w1, spaces, s[1..]);
    }
  }

  /** Putting one more character after a run is putting it last. */
  lemma {:induction false} PutAllSnoc(w: Writer, spaces: nat, s: string, c: char)
    ensures PutAll(w, spaces, s + [c]) == Put(PutAll(w, spaces, s), spaces, c)
    decreases |s|
  {
    if |s| == 0 {
      assert s + [c] == [c];
      assert [c][1..] == [];
    } else {
      assert (s + [c])[0] == s[0];
      assert (s + [c])[1..] == s[1..] + [c];
      PutAllSnoc(Put(w, spaces, s[0]), spaces, s[1..], c);
    }
  }

  /** The counter never passes 78 once it starts at or below it, as long
      as the indent plus `b"` and one character fits. */
  lemma {:induction false} CounterStaysBelowLimit(w: Writer, spaces: nat, s: string)
    requires w.length <= MAX_LINE_LENGTH - 1 && spaces + 3 <= MAX_LINE_LENGTH - 1
    ensures PutAll(w, spaces, s).length <= MAX_LINE_LENGTH - 1
    decreases |s|
  {
    if |s| > 0 {
      CounterStaysBelowLimit(Put(w, spaces, s[0]), spaces, s[1..]);
    }
  }

  // ------------------------------------------------------------- decoding

  /** Reading a literal body back: skip every line break, keep every other
      character, and stop at the first quote that does not open a break. */
  function Payload(t: string, spaces: nat): string
    decreases |t|
  {
    var br := Break(spaces);
    if |t| == 0 then []
    else if |br| <= |t| && t[..|br|] == br then Payload(t[|br|..], spaces)
    else if t[0] == '"' then []
    else [t[0]] + Payload(t[1..], spaces)
  }

  /** Neither way of closing the literal is read as content. */
  lemma FooterIsEmpty(spaces: nat)
    ensures Payload("\")\n", spaces) == []
    ensures Payload("\"\n" + Blanks(spaces) + ")\n", spaces) == []
  {
    var br := Break(spaces);
    var long := "\"\n" + Blanks(spaces) + ")\n";
    assert |br| <= |long| ==> long[..|br|] != br by {
      if |br| <= |long| {
        assert long[spaces + 2] == ')' && br[spaces + 2] == 'b';
      }
    }
  }

  /** A character other than a quote that does not open a line break is
      read back as itself. */
  lemma PayloadOfChar(c: char, rest: string, spaces: nat)
    requires c != '"'
    ensures Payload([c] + rest, spaces) == [c] + Payload(rest, spaces)
  {
    var t := [c] + rest;
    var br := Break(spaces);
    assert t[0] == c;
    assert !(|br| <= |t| && t[..|br|] == br);
    assert t[1..] == rest;
  }

  /** A line break is skipped. */
  lemma PayloadOfBreak(t: string, spaces: nat)
    ensures Payload(Break(spaces) + t, spaces) == Payload(t, spaces)
  {
    var br := Break(spaces);
    assert (br + t)[..|br|] == br;
    assert (br + t)[|br|..] == t;
  }

  /** What one `Put` appends: its character, after a line break when the
      counter has reached 78. */
  lemma PutAppends(w: Writer, spaces: nat, c: char)
    ensures var w1 := Put(w, spaces, c);
      && w.output <= w1.output
      && w1.output[|w.output|..] == (if w.length >= MAX_LINE_LENGTH - 1 then Break(spaces) + [c] else [c])
  {
  }

  /** A character, possibly after a line break, reads back as itself. */
  lemma PayloadOfPiece(piece: string, c: char, rest: string, spaces: nat)
    requires c != '"'
    requires piece == [c] || piece == Break(spaces) + [c]
    ensures Payload(piece + rest, spaces) == [c] + Payload(rest, spaces)
  {
    PayloadOfChar(c, rest, spaces);
    if piece != [c] {
      assert piece + rest == Break(spaces) + ([c] + rest);
      PayloadOfBreak([c] + rest, spaces);
    }
  }

  /** What one `Put` appends, followed by text that reads back as `s1`,
      reads back as its character followed by `s1`. */
  lemma PayloadOfOnePut(w: Writer, spaces: nat, c: char, more: string, tail: string, s1: string)
    requires c != '"'
    requires Payload(more + tail, spaces) == s1 + Payload(tail, spaces)
    ensures var w1 := Put(w, spaces, c);
      && w.output <= w1.output
      && Payload(w1.output[|w.output|..] + more + tail, spaces) == [c] + s1 + Payload(tail, spaces)
  {
    PutAppends(w, spaces, c);
    var piece := Put(w, spaces, c).output[|w.output|..];
    PayloadOfPiece(piece, c, more + tail, spaces);
    assert piece + more + tail == piece + (more + tail);
  }

  /** What `PutAll` appends reads back as the characters put, followed by
      whatever comes after, when no quote was among them. */
  lemma {:induction false} PayloadOfPut(w: Writer, spaces: nat, s: string, tail: string)
    requires '"' !in s
    ensures var out := PutAll(w, spaces, s).output;
      w.output <= out && Payload(out[|w.output|..] + tail, spaces) == s + Payload(tail, spaces)
    decreases |s|
  {
    PutAllExtends(w, spaces, s);
    if |s| > 0 {
      var c := s[0];
      var w1 := Put(w, spaces, c);
      var out := PutAll(w1, spaces, s[1..]).output;
      assert '"' !in s[1..] && c != '"' by { assert s == [c] + s[1..]; }
      PayloadOfPut(w1, spaces, s[1..], tail);
      var more := out[|w1.output|..];
      PayloadOfOnePut(w, spaces, c, more, tail, s[1..]);
      assert out[|w.output|..] == w1.output[|w.output|..] + more;
      assert s == [c] + s[1..];
    } else {
      assert PutAll(w, spaces, s).output[|w.output|..] + tail == tail;
    }
  }

  /** Round trip: reading the body of the literal after the header gives the
      icon string back, provided the string holds no quote (base64 text
      never does). */
  lemma LiteralRoundTrip(name: string, icon: string)
    requires '"' !in icon
    ensures var out := IconLiteral(name, icon);
      && Header(name) <= out
      && Payload(out[|Header(name)|..], Indent(name)) == icon
  {
    var spaces := Indent(name);
    var w := Writer(Header(name), |name| + 8);
    var body := PutAll(w, spaces, icon);
    var footer := if body.length >= MAX_LINE_LENGTH - 1 then "\"\n" + Blanks(spaces) + ")\n" else "\")\n";
    PayloadOfPut(w, spaces, icon, footer);
    FooterIsEmpty(spaces);
    var out := IconLiteral(name, icon);
    assert out == body.output + footer;
    assert out[|Header(name)|..] == body.output[|w.output|..] + footer;
  }

  /** Every character adds at least itself to the output. */
  lemma {:induction false} PutAllLength(w: Writer, spaces: nat, s: string)
    ensures |PutAll(w, spaces, s).output| >= |w.output| + |s|
    decreases |s|
  {
    if |s| > 0 {
      PutAllLength(Put(w, spaces, s[0]), spaces, s[1..]);
    }
  }

  // ----------------------------------------------------------- the writer

  /** `append_string_to_icon_file` without the final write: the loop the
      script runs, building the same text as `IconLiteral`. */
  method AppendStringToIconFile(name: string, icon: string) returns (output: string)
    ensures output == IconLiteral(name, icon)
  {
    output := "\n\n" + name + " = (";
    var spaces := |output| - 2;
    output := output + "b\"";
    var length := |output|;
    var i := 0;
    while i < |icon|
      invariant 0 <= i <= |icon|
      invariant Writer(output, length) == PutAll(Writer(Header(name), |name| + 8), spaces, icon[..i])
    {
      var c := icon[i];
      PutAllSnoc(Writer(Header(name), |name| + 8), spaces, icon[..i], c);
      assert icon[..i + 1] == icon[..i] + [c];
      if length >= MAX_LINE_LENGTH - 1 {
        output := output + "\"\n";
        var start := output;
        var k := 0;
        while k < spaces
          invariant 0 <= k <= spaces
          invariant output == start + Blanks(k)
        {
          assert Blanks(k + 1) == Blanks(k) + " ";
          output := output + " ";
          k := k + 1;
        }
        length := 0;
        output := output + "b\"";
        length := length + 2 + spaces;
      }
      output := output + [c];
      length := length + 1;
      i := i + 1;
    }
    assert icon[..|icon|] == icon;
    if length >= MAX_LINE_LENGTH - 1 {
      output := output + "\"\n";
      var start := output;
      var k := 0;
      while k < spaces
        invariant 0 <= k <= spaces
        invariant output == start + Blanks(k)
      {
        assert Blanks(k + 1) == Blanks(k) + " ";
        output := output + " ";
        k := k + 1;
      }
      length := 0;
      output := output + ")\n";
    } else {
      output := output + "\")\n";
    }
  }
}
