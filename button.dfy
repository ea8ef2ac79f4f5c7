/** A button of the grid and its one-character encoding. */
module Buttons {
  import opened Counting

  datatype ButtonState = None | Down | Flagged | Questioned

  /** A button: its display state and whether a bomb lies under it. */
  datatype Button = Button(state: ButtonState, hasBomb: bool)

  /** A default-constructed button: untouched and bomb-free. */
  const Fresh: Button := Button(None, false)

  predicate IsFlagged(b: Button) { b.state == Flagged }
  predicate IsHidden(b: Button) { b.state == None }
  predicate IsDown(b: Button) { b.state == Down }
  predicate IsUp(b: Button) { b.state != Down }
  predicate HasBomb(b: Button) { b.hasBomb }

  /** The eight characters of the per-button encoding. */
  predicate IsButtonChar(c: char) {
    c == '.' || c == 'b' || c == 'd' || c == 'x' || c == 'f' || c == 'c' || c == 'q' || c == 'r'
  }

  predicate IsFlagChar(c: char) { c == 'f' || c == 'c' }

  /** Decodes one character: `.`/`b` untouched, `d`/`x` down, `f`/`c` flagged,
      `q`/`r` questioned; the second letter of each pair carries a bomb. */
  function DecodeButton(c: char): (b: Button)
    requires IsButtonChar(c)
    ensures b.hasBomb <==> (c == 'b' || c == 'x' || c == 'c' || c == 'r')
    ensures b.state == None <==> (c == '.' || c == 'b')
    ensures b.state == Down <==> (c == 'd' || c == 'x')
    ensures b.state == Flagged <==> IsFlagChar(c)
    ensures b.state == Questioned <==> (c == 'q' || c == 'r')
  {
    if c == '.' then Button(None, false)
    else if c == 'b' then Button(None, true)
    else if c == 'd' then Button(Down, false)
    else if c == 'x' then Button(Down, true)
    else if c == 'f' then Button(Flagged, false)
    else if c == 'c' then Button(Flagged, true)
    else if c == 'q' then Button(Questioned, false)
    else Button(Questioned, true)
  }

  /** Encodes one button; decoding the character gives the button back. */
  function EncodeButton(b: Button): (c: char)
    ensures IsButtonChar(c)
    ensures DecodeButton(c) == b
  {
    match b.state
    case None => if b.hasBomb then 'b' else '.'
    case Down => if b.hasBomb then 'x' else 'd'
    case Flagged => if b.hasBomb then 'c' else 'f'
    case Questioned => if b.hasBomb then 'r' else 'q'
  }

  /** The other direction: encoding a decoded character gives the character back. */
  lemma EncodeDecodeButton(c: char)
    requires IsButtonChar(c)
    ensures EncodeButton(DecodeButton(c)) == c
  {
  }

  predicate IsButtonString(s: string) {
    forall i :: 0 <= i < |s| ==> IsButtonChar(s[i])
  }

  /** Decodes a button string, one button per character, in the same (row-major) order. */
  function DecodeButtons(s: string): (bs: seq<Button>)
    requires IsButtonString(s)
    ensures |bs| == |s|
    ensures forall i :: 0 <= i < |s| ==> bs[i] == DecodeButton(s[i])
  {
    seq(|s|, i requires 0 <= i < |s| => DecodeButton(s[i]))
  }

  /** Encodes a grid as a button string. */
  function EncodeButtons(bs: seq<Button>): (s: string)
    ensures IsButtonString(s)
    ensures |s| == |bs|
    ensures forall i :: 0 <= i < |bs| ==> s[i] == EncodeButton(bs[i])
  {
    seq(|bs|, i requires 0 <= i < |bs| => EncodeButton(bs[i]))
  }

  /** Decoding an encoded grid gives the grid back. */
  lemma DecodeEncodeButtons(bs: seq<Button>)
    ensures DecodeButtons(EncodeButtons(bs)) == bs
  {
  }

  /** Encoding a decoded string gives the string back. */
  lemma EncodeDecodeButtons(s: string)
    requires IsButtonString(s)
    ensures EncodeButtons(DecodeButtons(s)) == s
  {
    forall i | 0 <= i < |s|
      ensures EncodeButtons(DecodeButtons(s))[i] == s[i]
    {
      EncodeDecodeButton(s[i]);
    }
  }

  /** The grid decoded from a string has as many flagged buttons as the string has
      `f` and `c` characters. */
  lemma DecodedFlagCount(s: string)
    requires IsButtonString(s)
    ensures Count(DecodeButtons(s), IsFlagged) == Count(s, IsFlagChar)
  {
    CountPointwise(DecodeButtons(s), IsFlagged, s, IsFlagChar);
  }
}
