/**
  Decoding of one read from the terminal into a heading. An arrow key arrives
  as the three characters ESC '[' letter; the letter's code selects the
  heading, and any other code is ignored.
 */
module Keys {
  import opened Optional
  import opened Grid

  /** What one read of up to three characters yields. */
  datatype KeyOutcome =
    | Arrow(direction: Direction)  // an arrow key: queued for the game loop
    | Ignored(code: int)           // another key: dropped with a diagnostic
    | Unreadable                   // no single code to take (`ord` raises)

  /**
    The code taken from a read: the third character of a three-character read,
    the character itself of a one-character read, and none otherwise.
   */
  function LastCode(chunk: string): (r: Option<int>)
    ensures r.Some? <==> |chunk| == 1 || |chunk| == 3
    ensures r.Some? ==> r.value == chunk[|chunk| - 1] as int
  {
    if |chunk| == 3 then Some(chunk[2] as int)
    else if |chunk| == 1 then Some(chunk[0] as int)
    else None
  }

  /** The code of the final character of each arrow key's escape sequence. */
  function ArrowCode(d: Direction): int {
    match d
    case Up => 65
    case Down => 66
    case Right => 67
    case Left => 68
  }

  /** The key table: the codes of 'A', 'B', 'C' and 'D', and nothing else. */
  function DirectionForCode(k: int): (r: Option<Direction>)
    ensures r.Some? <==> 65 <= k <= 68
    ensures r.Some? ==> ArrowCode(r.value) == k
  {
    if k == 65 then Some(Up)
    else if k == 66 then Some(Down)
    else if k == 67 then Some(Right)
    else if k == 68 then Some(Left)
    else None
  }

  /** Every heading is reached by exactly its own arrow code. */
  lemma ArrowCodeRoundTrip(d: Direction, k: int)
    ensures DirectionForCode(ArrowCode(d)) == Some(d)
    ensures DirectionForCode(k) == Some(d) <==> k == ArrowCode(d)
  {
  }

  /** One read of the terminal, decoded. */
  function DecodeKey(chunk: string): (r: KeyOutcome)
    ensures r.Arrow? <==> LastCode(chunk).Some? && 65 <= LastCode(chunk).value <= 68
    ensures r.Arrow? ==> chunk[|chunk| - 1] as int == ArrowCode(r.direction)
    ensures r.Ignored? ==> LastCode(chunk) == Some(r.code) && !(65 <= r.code <= 68)
    ensures r.Unreadable? <==> |chunk| != 1 && |chunk| != 3
  {
    match LastCode(chunk)
    case None => Unreadable
    case Some(k) =>
      match DirectionForCode(k)
      case Some(d) => Arrow(d)
      case None => Ignored(k)
  }

  /** The escape sequence of an arrow key decodes to that key's heading. */
  lemma EscapeSequenceDecodes(d: Direction)
    ensures DecodeKey(['\U{1b}', '[', ArrowCode(d) as char]) == Arrow(d)
  {
  }
}
