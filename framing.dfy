/**
 * The relay payload `<room>|<content>` that every publisher builds, and the
 * way a room's subscription handler splits it again (strings.SplitN with a
 * limit of two parts).
 */
module Framing {
  import opened Wrappers

  /** The delimiter between room name and content. */
  const Separator: char := '|'

  /** The payload published for `content` in `room`. */
  function Frame(room: string, content: string): string
  {
    room + [Separator] + content
  }

  /** Position of the first `c` in `s`, if any. */
  function FirstIndex(s: string, c: char): (r: Option<nat>)
    ensures r.None? <==> c !in s
    ensures r.Some? ==> r.value < |s| && s[r.value] == c && c !in s[..r.value]
  {
    if s == [] then None
    else if s[0] == c then Some(0)
    else match FirstIndex(s[1..], c)
      case None => None
      case Some(i) =>
        assert s[..i + 1] == [s[0]] + s[1..][..i];
        Some(i + 1)
  }

  /** strings.SplitN(s, "|", 2): the whole string, or the parts before and after the first separator. */
  function SplitFirst(s: string): (parts: seq<string>)
    ensures 1 <= |parts| <= 2
    ensures |parts| == 1 <==> Separator !in s
    ensures |parts| == 1 ==> parts[0] == s
    ensures |parts| == 2 ==> s == parts[0] + [Separator] + parts[1] && Separator !in parts[0]
  {
    match FirstIndex(s, Separator)
    case None => [s]
    case Some(i) =>
      assert s == s[..i] + [Separator] + s[i + 1..];
      [s[..i], s[i + 1..]]
  }

  /**
   * The content a room's subscription handler hands to local fanout: what
   * follows the first separator, or nothing when there is no separator.
   */
  function RelayContent(payload: string): (r: Option<string>)
    ensures r.None? <==> Separator !in payload
    ensures r.Some? ==>
      exists head :: Separator !in head && payload == head + [Separator] + r.value
  {
    var parts := SplitFirst(payload);
    if |parts| != 2 then None else Some(parts[1])
  }

  /** Splitting undoes framing whenever the room name has no separator, whatever the content holds. */
  lemma {:induction false} FrameRoundTrip(room: string, content: string)
    requires Separator !in room
    ensures RelayContent(Frame(room, content)) == Some(content)
  {
    var p := Frame(room, content);
    assert p[|room|] == Separator;
    assert p[..|room|] == room;
    var parts := SplitFirst(p);
    assert |parts| == 2;
    assert FirstIndex(p, Separator).value == |room|;
  }

  /**
   * A room name that holds a separator loses its tail to the content: the
   * handler delivers the rest of the room name, a separator, then the content.
   */
  lemma {:induction false} SeparatorInRoomLeaks(room: string, content: string)
    requires Separator in room
    ensures FirstIndex(room, Separator).Some?
    ensures RelayContent(Frame(room, content))
         == Some(room[FirstIndex(room, Separator).value + 1..] + [Separator] + content)
  {
    var p := Frame(room, content);
    var i := FirstIndex(room, Separator).value;
    assert p[..|room|] == room;
    assert p[i] == Separator;
    assert FirstIndex(p, Separator).value == i;
    assert p[i + 1..] == room[i + 1..] + [Separator] + content;
  }
}
