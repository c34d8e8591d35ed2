/** The circular error log of fpc_debug.c: a byte buffer, the end of the newest message, and a flag
    that the buffer has wrapped. */
module CircularLog {
  import opened Bytes

  const NEWLINE: byte := 10

  // ---------------------------------------------------------------- what the log means

  /** Everything logged so far, cut into cycles of the buffer; the last one is still growing. */
  datatype Stream = Stream(cycles: seq<seq<byte>>, current: seq<byte>)

  function Line(text: seq<byte>): seq<byte> { text + [NEWLINE] }

  function Pad(cycle: seq<byte>, n: nat): (s: seq<byte>)
    ensures |cycle| <= n ==> |s| == n
  {
    cycle + Repeat(0, if |cycle| <= n then n - |cycle| else 0)
  }

  /** The completed cycles, each zero-padded to the size of the buffer. */
  function Padded(cycles: seq<seq<byte>>, n: nat): seq<byte> {
    if cycles == [] then []
    else Padded(cycles[..|cycles| - 1], n) + Pad(cycles[|cycles| - 1], n)
  }

  function Plain(cycles: seq<seq<byte>>): seq<byte> {
    if cycles == [] then [] else Plain(cycles[..|cycles| - 1]) + cycles[|cycles| - 1]
  }

  /** One message: it starts a new cycle when it does not fit behind the others. */
  function Feed(s: Stream, text: seq<byte>, n: nat): Stream {
    if |s.current| + |text| >= n - 1 then Stream(s.cycles + [s.current], Line(text))
    else s.(current := s.current + Line(text))
  }

  function FeedAll(texts: seq<seq<byte>>, n: nat): Stream {
    if texts == [] then Stream([], [])
    else Feed(FeedAll(texts[..|texts| - 1], n), texts[|texts| - 1], n)
  }

  function Lines(texts: seq<seq<byte>>): seq<byte> {
    if texts == [] then [] else Lines(texts[..|texts| - 1]) + Line(texts[|texts| - 1])
  }

  /** The dump of a log: everything before the first wrap, and after it the last n bytes of the
      padded stream. */
  function Dump(s: Stream, n: nat): seq<byte> {
    if s.cycles == [] then s.current
    else
      var all := Padded(s.cycles, n) + s.current;
      if |all| < n then all else all[|all| - n..]
  }

  predicate Fit(texts: seq<seq<byte>>, n: nat) {
    forall i :: 0 <= i < |texts| ==> |texts[i]| < n - 1
  }

  predicate Short(cycles: seq<seq<byte>>, n: nat) {
    forall i :: 0 <= i < |cycles| ==> |cycles[i]| <= n - 1
  }

  /** No message is lost, cut or reordered on its way into the stream, and no cycle exceeds the
      buffer. */
  lemma {:induction false} StreamIsComplete(texts: seq<seq<byte>>, n: nat)
    requires n >= 1 && Fit(texts, n)
    ensures var s := FeedAll(texts, n);
            && Plain(s.cycles) + s.current == Lines(texts)
            && Short(s.cycles, n) && |s.current| <= n - 1
  {
    hide Line;
    if texts != [] {
      var init, last := texts[..|texts| - 1], texts[|texts| - 1];
      StreamIsComplete(init, n);
      var s := FeedAll(init, n);
      FeedKeeps(s, last, n);
      LineLength(last);
    }
  }

  lemma LineLength(text: seq<byte>)
    ensures |Line(text)| == |text| + 1
  {
  }

  lemma FeedKeeps(s: Stream, text: seq<byte>, n: nat)
    requires n >= 1 && |text| < n - 1 && Short(s.cycles, n) && |s.current| <= n - 1
    ensures var s' := Feed(s, text, n);
            && Plain(s'.cycles) + s'.current == Plain(s.cycles) + s.current + Line(text)
            && Short(s'.cycles, n) && |s'.current| <= n - 1
  {
    if |s.current| + |text| >= n - 1 {
      assert (s.cycles + [s.current])[..|s.cycles|] == s.cycles;
    }
  }

  /** A message starts a new cycle exactly if its line, behind those of the current one, would
      reach the last byte of the buffer; otherwise it only extends the current one. */
  lemma WrapsExactly(texts: seq<seq<byte>>, text: seq<byte>, n: nat)
    ensures var s, s' := FeedAll(texts, n), FeedAll(texts + [text], n);
            if |s.current| + |Line(text)| > n - 1
            then s'.cycles == s.cycles + [s.current] && s'.current == Line(text)
            else s'.cycles == s.cycles && s'.current == s.current + Line(text)
  {
    assert (texts + [text])[..|texts|] == texts;
  }

  /** Until the first wrap the dump is all messages, each ended by a newline; afterwards it is
      the last n bytes of the stream. */
  lemma DumpMeaning(texts: seq<seq<byte>>, n: nat)
    requires n >= 1 && Fit(texts, n)
    ensures var s := FeedAll(texts, n);
            && (s.cycles == [] ==> Dump(s, n) == Lines(texts))
            && (s.cycles != [] ==>
                  && |Dump(s, n)| == n
                  && exists older :: Padded(s.cycles, n) + s.current == older + Dump(s, n))
  {
    StreamIsComplete(texts, n);
    var s := FeedAll(texts, n);
    PaddedLength(s.cycles, n);
    if s.cycles == [] {
      assert Plain([]) + s.current == s.current;
    } else {
      var all := Padded(s.cycles, n) + s.current;
      assert all == all[..|all| - n] + Dump(s, n);
    }
  }

  lemma {:induction false} PaddedLength(cycles: seq<seq<byte>>, n: nat)
    requires n >= 1 && Short(cycles, n)
    ensures |Padded(cycles, n)| == n * |cycles|
    ensures cycles != [] ==>
              && |Padded(cycles, n)| >= n
              && Padded(cycles, n)[|Padded(cycles, n)| - n..] == Pad(cycles[|cycles| - 1], n)
  {
    if cycles != [] {
      PaddedLength(cycles[..|cycles| - 1], n);
    }
  }

  // ---------------------------------------------------------------- the buffer

  /** vsnprintf into a[at..at+room]: as much of the text as fits, and a terminating zero. */
  method Vsnprintf(a: array<byte>, at: nat, room: nat, text: seq<byte>)
    requires at + room <= a.Length
    modifies a
    ensures var m := if room == 0 then 0 else if |text| < room then |text| else room - 1;
            a[..] == old(a[..at]) + text[..m] + (if room == 0 then [] else [0])
                     + old(a[..])[at + m + (if room == 0 then 0 else 1)..]
  {
    ghost var before := a[..];
    if room == 0 {
      return;
    }
    var m := if |text| < room then |text| else room - 1;
    for i := 0 to m
      invariant forall k :: 0 <= k < at ==> a[k] == before[k]
      invariant forall k :: 0 <= k < i ==> a[at + k] == text[k]
      invariant forall k :: at + i <= k < a.Length ==> a[k] == before[k]
    {
      a[at + i] := text[i];
    }
    a[at + m] := 0;
    assert a[..] == before[..at] + text[..m] + [0] + before[at + m + 1..];
  }

  lemma Tails(a: seq<byte>, b: seq<byte>, i: nat, j: nat)
    requires i <= j <= |a| == |b| && a[i..] == b[i..]
    ensures a[j..] == b[j..]
  {
    assert a[j..] == a[i..][j - i..] && b[j..] == b[i..][j - i..];
  }

  /** The buffer after an over-long message: the text, cut off, lies behind the end. */
  function Overwritten(b: seq<byte>, end: nat, text: seq<byte>): (r: seq<byte>)
    requires |b| >= 1 && end <= |b| - 1 <= |text|
    ensures |r| == |b|
  {
    var room := |b| - 1 - end;
    if room == 0 then b else b[..end] + text[..room - 1] + [0] + b[|b| - 1..]
  }

  /** What one over-long message does to the two parts of the buffer: the newest messages are safe,
      and the older ones are shown as before exactly if there was no room at all or the cut-off
      text and its terminator are what the buffer held there anyway. */
  lemma OverlongExact(b: seq<byte>, end: nat, text: seq<byte>)
    requires |b| >= 1 && end <= |b| - 1 <= |text|
    ensures var o := Overwritten(b, end, text);
            && |o| == |b| && o[..end] == b[..end]
            && (o[end..] + o[..end] == b[end..] + b[..end]
                <==> end == |b| - 1 || text[..|b| - 2 - end] + [0] == b[end..|b| - 1])
  {
    var o := Overwritten(b, end, text);
    var last := |b| - 1;
    if end < last {
      var cut := text[..last - end - 1] + [0];
      assert o == b[..end] + cut + b[last..];
      assert o[end..last] == cut && o[last..] == b[last..];
      assert o[end..] == cut + b[last..];
      assert b[end..] == b[end..last] + b[last..];
      if o[end..] + o[..end] == b[end..] + b[..end] {
        assert (o[end..] + o[..end])[..last - end] == cut;
        assert (b[end..] + b[..end])[..last - end] == b[end..last];
      }
    }
  }

  /** A full log shows the same after this over-long message. */
  predicate SameDump(b: seq<byte>, end: nat, text: seq<byte>)
    requires |b| >= 1 && end <= |b| - 1 <= |text|
  {
    var o := Overwritten(b, end, text);
    o[end..] + o[..end] == b[end..] + b[..end]
  }

  lemma NoneHarms(b: seq<byte>, end: nat)
    requires |b| >= 1 && end <= |b| - 1
    ensures (forall text: seq<byte> :: |text| >= |b| - 1 ==> SameDump(b, end, text))
            <==> end == |b| - 1 || (end == |b| - 2 && b[end] == 0)
  {
    hide SameDump;
    if end == |b| - 1 || (end == |b| - 2 && b[end] == 0) {
      forall text: seq<byte> | |text| >= |b| - 1 ensures SameDump(b, end, text) {
        Harmless(b, end, text);
      }
    } else {
      var text := Repeat(if b[end] == 0 then 1 else 0, |b| - 1);
      Harmful(b, end, text);
    }
  }

  lemma Harmless(b: seq<byte>, end: nat, text: seq<byte>)
    requires |b| >= 1 && end <= |b| - 1 <= |text|
    requires end == |b| - 1 || (end == |b| - 2 && b[end] == 0)
    ensures SameDump(b, end, text)
  {
    hide Overwritten;
    OverlongExact(b, end, text);
    if end == |b| - 2 {
      assert text[..0] + [0] == [0] == b[end..|b| - 1];
    }
  }

  lemma Harmful(b: seq<byte>, end: nat, text: seq<byte>)
    requires |b| >= 1 && end < |b| - 1 == |text|
    requires end == |b| - 2 ==> b[end] != 0
    requires text[0] != b[end]
    ensures !SameDump(b, end, text)
  {
    hide Overwritten;
    OverlongExact(b, end, text);
    var cut := text[..|b| - 2 - end] + [0];
    assert cut[0] == if end == |b| - 2 then 0 else text[0];
    assert b[end..|b| - 1][0] == b[end];
  }

  class Log {
    const buffer: array<byte>
    var end: nat
    var full: bool
    ghost var stream: Stream
    /** An over-long message has been written over the oldest messages since the last wrap. */
    ghost var spoiled: bool

    ghost predicate Valid()
      reads this, buffer
    {
      && buffer.Length >= 1 && end <= buffer.Length - 1
      && buffer[buffer.Length - 1] == 0
      && stream.current == buffer[..end]
      && Short(stream.cycles, buffer.Length)
      && (full <==> stream.cycles != [])
      && (spoiled ==> full)
      && (full && !spoiled ==>
            buffer[end..] == Pad(stream.cycles[|stream.cycles| - 1], buffer.Length)[end..])
    }

    constructor (n: nat)
      requires n >= 1
      ensures Valid() && buffer.Length == n && stream == Stream([], []) && !spoiled && fresh(buffer)
    {
      buffer := new byte[n](_ => 0);
      end, full := 0, false;
      stream, spoiled := Stream([], []), false;
    }

    /** Clear the rest of the buffer and start again at its beginning. */
    method Wrap()
      requires buffer.Length >= 1 && end <= buffer.Length - 1
      requires buffer[buffer.Length - 1] == 0 && stream.current == buffer[..end]
      requires Short(stream.cycles, buffer.Length)
      modifies this, buffer
      ensures Valid() && full && !spoiled && end == 0
      ensures stream == Stream(old(stream).cycles + [old(stream).current], [])
    {
      ghost var before := buffer[..];
      var room := buffer.Length - 1 - end;
      for i := 0 to room
        invariant forall k :: 0 <= k < end ==> buffer[k] == before[k]
        invariant forall k :: end <= k < end + i ==> buffer[k] == 0
        invariant buffer[buffer.Length - 1] == 0
        modifies buffer
      {
        buffer[end + i] := 0;
      }
      assert buffer[..] == Pad(stream.current, buffer.Length);
      stream := Stream(stream.cycles + [stream.current], []);
      full, spoiled, end := true, false, 0;
    }

    /** Format a message that fits at the end, and put the newline over its terminator. */
    method Append(text: seq<byte>)
      requires Valid() && end + |text| < buffer.Length - 1
      modifies this`end, this`stream, buffer
      ensures Valid() && stream == old(stream).(current := old(stream).current + Line(text))
    {
      ghost var before := buffer[..];
      Vsnprintf(buffer, end, buffer.Length - 1 - end, text);
      AppendNewline(text, before);
    }

    method AppendNewline(text: seq<byte>, ghost before: seq<byte>)
      requires |before| == buffer.Length >= 1 && end + |text| < buffer.Length - 1
      requires buffer[..] == before[..end] + text + [0] + before[end + |text| + 1..]
      requires before[buffer.Length - 1] == 0 && stream.current == before[..end]
      requires Short(stream.cycles, buffer.Length) && (full <==> stream.cycles != []) && (spoiled ==> full)
      requires full && !spoiled ==>
                 before[end..] == Pad(stream.cycles[|stream.cycles| - 1], buffer.Length)[end..]
      modifies this`end, this`stream, buffer
      ensures Valid() && stream == old(stream).(current := old(stream).current + Line(text))
    {
      hide Pad;
      ghost var start := end;
      end := end + |text|;
      buffer[end] := NEWLINE;
      end := end + 1;
      stream := stream.(current := stream.current + Line(text));
      assert buffer[..end] == before[..start] + Line(text);
      assert buffer[end..] == before[end..];
      if full && !spoiled {
        Tails(before, Pad(stream.cycles[|stream.cycles| - 1], buffer.Length), start, end);
      }
    }

    /** fpc_debug_circular_log, for a message the formatter renders as `text`. */
    method Write(text: seq<byte>)
      requires Valid()
      modifies this, buffer
      ensures Valid()
      ensures |text| < buffer.Length - 1 ==> stream == Feed(old(stream), text, buffer.Length)
      ensures |text| >= buffer.Length - 1 ==>
                && stream == old(stream) && end == old(end) && full == old(full)
                && buffer[..] == Overwritten(old(buffer[..]), end, text)
      ensures spoiled <==>
                if |text| < buffer.Length - 1 then old(spoiled) && old(end) + |text| < buffer.Length - 1
                else old(spoiled) || (full && end < buffer.Length - 1)
    {
      hide Short, Pad;
      var room := buffer.Length - 1 - end;
      ghost var before := buffer[..];
      Vsnprintf(buffer, end, room, text);
      assert buffer[..end] == before[..end] && buffer[buffer.Length - 1] == before[buffer.Length - 1];
      if |text| >= buffer.Length - 1 {
        spoiled := spoiled || (full && room > 0);
        return;
      }
      if |text| >= room {
        Wrap();
        Append(text);
        assert [] + Line(text) == Line(text);
      } else {
        AppendNewline(text, before);
      }
    }

    /** What a dump shows of this buffer. */
    ghost function Shown(b: seq<byte>): seq<byte>
      reads this
      requires |b| == buffer.Length && end <= |b|
    {
      (if full then b[end..] else []) + b[..end]
    }

    /** Over-long messages are harmless, all of them, exactly if the log has not wrapped yet, or no
        room is left behind the newest message, or one byte is left and it is 0 already. */
    lemma OverlongHarmless()
      requires Valid()
      ensures (forall text: seq<byte> :: |text| >= buffer.Length - 1 ==>
                 Shown(Overwritten(buffer[..], end, text)) == Shown(buffer[..]))
              <==> || !full || end == buffer.Length - 1
                   || (end == buffer.Length - 2 && buffer[end] == 0)
    {
      hide Overwritten, SameDump, Short, Pad;
      var b := buffer[..];
      forall text: seq<byte> | |text| >= |b| - 1
        ensures Shown(Overwritten(b, end, text)) == Shown(b) <==> !full || SameDump(b, end, text)
      {
        ShownIsDump(b, text);
      }
      if full {
        NoneHarms(b, end);
      }
    }

    lemma ShownIsDump(b: seq<byte>, text: seq<byte>)
      requires |b| == buffer.Length >= 1 && end <= |b| - 1 <= |text|
      ensures Shown(Overwritten(b, end, text)) == Shown(b) <==> !full || SameDump(b, end, text)
    {
      OverlongExact(b, end, text);
    }

    /** fpc_debug_get_circular_log; the caller's buffer must hold the whole log. */
    method Read(room: nat) returns (dump: seq<byte>, ok: bool)
      requires Valid()
      ensures ok <==> room >= buffer.Length
      ensures ok ==> dump == (if full then buffer[end..] else []) + buffer[..end]
      ensures ok && !spoiled ==> dump == Dump(stream, buffer.Length)
      ensures ok && spoiled ==>
                |dump| == buffer.Length && dump[buffer.Length - end..] == stream.current
    {
      if room < buffer.Length {
        return [], false;
      }
      if full {
        dump := buffer[end..] + buffer[..end];
      } else {
        dump := buffer[..end];
      }
      ok := true;
    }
  }

  /** The guard matters: a message as long as the buffer is not logged, yet can destroy old
      messages.  In five bytes, "ab" and then "c" leave the newline of "ab" to be shown; four
      more bytes of text overwrite it. */
  lemma OverlongSpoils()
    ensures var s := FeedAll([[97, 98], [99]], 5);
            var b: seq<byte> := [99, NEWLINE, NEWLINE, 0, 0];
            && s == Stream([[97, 98, NEWLINE]], [99, NEWLINE])
            && b[..2] == s.current && b[2..] == Pad(s.cycles[0], 5)[2..]
            && b[2..] + b[..2] == Dump(s, 5)
            && Overwritten(b, 2, [120, 120, 120, 120])[2..] + b[..2] != Dump(s, 5)
  {
    hide FeedAll, Feed, Dump, Pad, Padded, Overwritten;
    TwoShortLines();
    TwoLinesDumped();
    var b: seq<byte> := [99, NEWLINE, NEWLINE, 0, 0];
    var pad: seq<byte> := [97, 98, NEWLINE, 0, 0];
    assert b[2..] == [NEWLINE, 0, 0] == pad[2..];
    assert b[..2] == [99, NEWLINE];
    assert Overwritten(b, 2, [120, 120, 120, 120])[2] == 120 by { FourOverTwo(); }
    assert (Overwritten(b, 2, [120, 120, 120, 120])[2..] + b[..2])[0] == 120;
  }

  lemma TwoShortLines()
    ensures FeedAll([[97, 98], [99]], 5) == Stream([[97, 98, NEWLINE]], [99, NEWLINE])
  {
    hide Dump, Pad, Padded;
    var texts: seq<seq<byte>> := [[97, 98], [99]];
    assert texts[..1] == [[97, 98]] && texts[..1][..0] == [];
    assert FeedAll(texts[..1], 5) == Stream([], [97, 98, NEWLINE]);
  }

  lemma TwoLinesDumped()
    ensures Pad([97, 98, NEWLINE], 5) == [97, 98, NEWLINE, 0, 0]
    ensures Dump(Stream([[97, 98, NEWLINE]], [99, NEWLINE]), 5) == [NEWLINE, 0, 0, 99, NEWLINE]
  {
    hide FeedAll, Feed;
    var cycle: seq<byte> := [97, 98, NEWLINE];
    assert [cycle][..0] == [];
    assert Pad(cycle, 5) == [97, 98, NEWLINE, 0, 0];
    assert Padded([cycle], 5) == Pad(cycle, 5);
    var all: seq<byte> := [97, 98, NEWLINE, 0, 0, 99, NEWLINE];
    assert Padded([cycle], 5) + [99, NEWLINE] == all;
    assert all[2..] == [NEWLINE, 0, 0, 99, NEWLINE];
  }

  lemma FourOverTwo()
    ensures var b: seq<byte> := [99, NEWLINE, NEWLINE, 0, 0];
            |Overwritten(b, 2, [120, 120, 120, 120])| == 5 && Overwritten(b, 2, [120, 120, 120, 120])[2] == 120
  {
  }
}
