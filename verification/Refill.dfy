// The scanner's buffer when it reads from a stream: marks, compaction, growth and refilling.
module Refill {
  import opened Basics
  import opened Utf8
  import Strings

  datatype ReadError = NoError | Eof | UnexpectedEof | Failure

  function Min(a: nat, b: nat): nat { if a < b then a else b }

  /** Marks are in order and none is behind the cursor. */
  predicate Ordered(marks: seq<nat>, pos: nat) {
    && (forall k :: 0 <= k < |marks| ==> marks[k] <= pos)
    && (forall j, k :: 0 <= j < k < |marks| ==> marks[j] <= marks[k])
  }

  function Shifted(marks: seq<nat>, d: nat): (r: seq<nat>)
    requires forall k :: 0 <= k < |marks| ==> d <= marks[k]
    ensures |r| == |marks| && forall k :: 0 <= k < |r| ==> r[k] == marks[k] - d
  {
    seq(|marks|, k requires 0 <= k < |marks| => marks[k] - d)
  }

  /** The text between each mark and the cursor. */
  function Texts(raw: Bytes, marks: seq<nat>, pos: nat): (r: seq<Bytes>)
    requires pos <= |raw| && forall k :: 0 <= k < |marks| ==> marks[k] <= pos
    ensures |r| == |marks| && forall k :: 0 <= k < |r| ==> r[k] == raw[marks[k]..pos]
  {
    seq(|marks|, k requires 0 <= k < |marks| => raw[marks[k]..pos])
  }

  class Stream {
    /** The whole of the backing store; the buffer proper is its first rawLen bytes. */
    var raw: array<Byte>
    var rawLen: nat
    /** Where the unread input starts in the buffer. */
    var pos: nat
    var len: nat
    var marks: seq<nat>
    /** What the reader will still deliver, and whether it then fails instead of ending. */
    var rest: Bytes
    var broken: bool
    /** The reader is still attached. */
    var open: bool

    predicate Valid()
      reads this, raw
    {
      0 < raw.Length && pos <= rawLen <= raw.Length && len == rawLen - pos && Ordered(marks, pos)
    }

    function Unread(): Bytes
      requires Valid()
      reads this, raw
    {
      raw[pos..rawLen]
    }

    /** Everything that is still to be read. */
    function Ahead(): Bytes
      requires Valid()
      reads this, raw
    {
      Unread() + if open then rest else []
    }

    /** The text between each mark and the cursor. */
    function MarkedTexts(): seq<Bytes>
      requires Valid()
      reads this, raw
    {
      Texts(raw[..], marks, pos)
    }

    /** Where the retained part of the buffer starts. */
    function Oldest(): (m: nat)
      requires Valid()
      reads this, raw
      ensures m <= pos
    {
      if marks == [] then pos else marks[0]
    }

    /** How much a refill asks the reader for. */
    function Room(): (n: nat)
      requires Valid()
      reads this, raw
      ensures raw.Length >= 13 && (marks == [] ==> len <= 8) ==> n >= 4
    {
      var retain := rawLen - Oldest();
      (if marks != [] && retain > raw.Length * 3 / 4 then 2 * raw.Length else raw.Length) - retain
    }

    /**
     * The room is what is left of the store behind the oldest marked text, and the whole store once more if that text takes up
     * more than three quarters of it.
     */
    lemma RoomIsLeft()
      requires Valid()
      ensures var kept := if marks == [] then len else rawLen - marks[0];
        Room() + kept == if marks != [] && 4 * kept > 3 * raw.Length then raw.Length + raw.Length else raw.Length
    {}

    /** The next read gets something, and does not fail half way; or there is nothing to read for. */
    predicate Yields()
      requires Valid()
      reads this, raw
    {
      open ==> rest != [] && (broken ==> |rest| >= Room())
    }

    constructor (buffer: array<Byte>, filled: nat, rest: Bytes, broken: bool, open: bool)
      requires 0 < buffer.Length && filled <= buffer.Length
      ensures Valid() && raw == buffer && pos == 0 && rawLen == filled && marks == []
      ensures this.rest == rest && this.broken == broken && this.open == open
    {
      raw := buffer;
      rawLen, pos, len, marks := filled, 0, filled, [];
      this.rest, this.broken, this.open := rest, broken, open;
    }

    /** Fills buf[from..] as far as the reader goes. */
    method ReadFull(buf: array<Byte>, from: nat) returns (n: nat, err: ReadError)
      requires from <= buf.Length
      modifies buf, `rest
      ensures n == Min(buf.Length - from, |old(rest)|)
      ensures buf[..from] == old(buf[..from]) && buf[from..from + n] == old(rest)[..n]
      ensures buf[from + n..] == old(buf[from + n..])
      ensures rest == old(rest)[n..]
      ensures err == if n == buf.Length - from then NoError else if broken then Failure else if n == 0 then Eof else UnexpectedEof
    {
      n := Min(buf.Length - from, |rest|);
      forall k | 0 <= k < n {
        buf[from + k] := rest[k];
      }
      err := if n == buf.Length - from then NoError else if broken then Failure else if n == 0 then Eof else UnexpectedEof;
      rest := rest[n..];
    }

    /** Moves the retained bytes to the front, in place. */
    method Compact(from: nat, count: nat)
      requires from + count <= raw.Length
      modifies raw
      ensures raw[..count] == old(raw[from..from + count]) && raw[count..] == old(raw[count..])
    {
      forall k | 0 <= k < count {
        raw[k] := raw[from + k];
      }
    }

    /** A store twice as large with the same bytes in front. */
    method Grown() returns (b: array<Byte>)
      ensures fresh(b) && b.Length == 2 * raw.Length && b[..raw.Length] == raw[..]
    {
      b := new Byte[raw.Length * 2](_ => 0);
      forall k | 0 <= k < raw.Length {
        b[k] := raw[k];
      }
    }

    /** Compaction and, if a marked text takes up most of the store, growth; marks move along. */
    method MakeRoom() returns (store: array<Byte>, retain: nat, offset: nat)
      requires Valid()
      modifies raw, `marks
      ensures retain == rawLen - old(Oldest()) && offset == pos - old(Oldest()) && offset <= retain <= store.Length
      ensures store == raw || fresh(store)
      ensures store.Length - retain == old(Room())
      ensures store[..retain] == old(raw[Oldest()..rawLen])
      ensures marks == Shifted(old(marks), if old(marks) == [] then 0 else old(marks)[0])
      ensures raw.Length > 8 && (old(marks) == [] ==> len <= 8) ==> retain < store.Length
      ensures store.Length == raw.Length || store.Length == 2 * raw.Length
      ensures raw[..retain] == old(raw[Oldest()..rawLen]) && raw[retain..] == old(raw[retain..])
    {
      var oldest := Oldest();
      retain := rawLen - oldest;
      offset := pos - oldest;
      Compact(oldest, retain);
      store := raw;
      if |marks| > 0 {
        if retain > raw.Length * 3 / 4 {
          store := Grown();
          assert store[..retain] == store[..raw.Length][..retain];
        }
        marks := Shifted(marks, oldest);
      } else {
        assert Shifted(marks, 0) == marks;
      }
    }

    /**
     * refill. If the reader yields at least one byte, nothing that can be observed changes: the text between every mark
     * and the cursor, the unread input, and all that is ahead; there is only more to read before the next refill.
     */
    method Refill()
      requires Valid()
      requires raw.Length > 8 && (marks == [] ==> len <= 8)
      modifies this, raw
      ensures raw == old(raw) || fresh(raw)
      ensures Valid() && raw.Length >= old(raw.Length) && broken == old(broken)
      ensures old(Yields()) ==>
        && Ahead() == old(Ahead())
        && old(Unread()) <= Unread()
        && MarkedTexts() == old(MarkedTexts())
        && (open ==> rawLen == raw.Length && len == old(len) + old(Room()))
      ensures old(open) && old(rest) == [] && !old(broken) ==> !open && Stale()
      ensures old(open && broken && |rest| < Room()) ==> !open && Displaced() && rest == []
      ensures !old(open) ==> raw[..] == old(raw[..]) && pos == old(pos) && rawLen == old(rawLen) && marks == old(marks) && !open
    {
      hide Texts, Shifted, Ordered;
      if !open { return; }
      ghost var before, m0, pos0, end0, marks0, rest0 := raw[..], Oldest(), pos, rawLen, marks, rest;
      var store, retain, offset := MakeRoom();
      var n, kept := Fetch(store, retain, offset);
      if kept {
        Finished(before, m0, pos0, end0, marks0, rest0, retain, n);
      } else {
        ShiftedInOrder(marks0, pos);
      }
    }

    /** Reads behind the retained bytes and adopts the store, unless nothing came or the reader failed. */
    method Fetch(store: array<Byte>, retain: nat, offset: nat) returns (n: nat, kept: bool)
      requires offset <= retain < store.Length && open
      modifies store, `rest, `open, `raw, `rawLen, `pos, `len
      ensures n == Min(store.Length - retain, |old(rest)|) && rest == old(rest)[n..]
      ensures kept <==> n == store.Length - retain || (n > 0 && !broken)
      ensures kept ==> raw == store && rawLen == retain + n && pos == offset && len == rawLen - pos
      ensures kept ==> (open <==> n == store.Length - retain)
      ensures !kept ==> !open && raw == old(raw) && rawLen == old(rawLen) && pos == old(pos) && len == old(len)
      ensures store[..retain] == old(store[..retain]) && store[retain..retain + n] == old(rest)[..n]
      ensures n == 0 ==> store[..] == old(store[..])
    {
      var err;
      ghost var before := store[..];
      n, err := ReadFull(store, retain);
      assert n == 0 ==> store[..] == store[..retain] + store[retain..] == before[..retain] + before[retain..];
      kept := err != Failure && err != Eof;
      open := err == NoError;
      if kept { Adopt(store, retain, offset, n); }
    }

    /** What the refilled buffer shows. */
    lemma Finished(before: Bytes, m0: nat, pos0: nat, end0: nat, marks0: seq<nat>, rest0: Bytes, retain: nat, n: nat)
      requires m0 <= pos0 <= end0 <= |before| && retain == end0 - m0 && retain + n <= raw.Length && n <= |rest0|
      requires 0 < raw.Length
      requires raw[..retain] == before[m0..end0] && raw[retain..retain + n] == rest0[..n]
      requires Ordered(marks0, pos0) && m0 == (if marks0 == [] then pos0 else marks0[0])
      requires marks == Shifted(marks0, if marks0 == [] then 0 else marks0[0])
      requires pos == pos0 - m0 && rawLen == retain + n && len == rawLen - pos && rest == rest0[n..]
      requires (!open ==> n == |rest0|)
      ensures Valid() && Unread() == before[pos0..end0] + rest0[..n] && Ahead() == before[pos0..end0] + rest0
      ensures MarkedTexts() == Texts(before, marks0, pos0)
    {
      hide Texts, Shifted;
      KeepsText(before, m0, pos0, end0, raw[..], retain, n, rest0);
      KeepsMarks(before, m0, pos0, end0, marks0, raw[..], retain);
      assert raw[pos..rawLen] == raw[..][pos..rawLen];
      Assoc(before[pos0..end0], rest0[..n], rest0[n..]);
      assert rest0[..n] + rest0[n..] == rest0;
      assert rest0[n..] == if open then rest else [];
    }

    method Adopt(store: array<Byte>, retain: nat, offset: nat, n: nat)
      requires offset <= retain && retain + n <= store.Length
      modifies `raw, `rawLen, `pos, `len
      ensures raw == store && rawLen == retain + n && pos == offset && len == rawLen - pos
    {
      raw := store;
      rawLen := retain + n;
      pos := offset;
      len := rawLen - pos;
    }

    /** How many bytes a decoded rune takes off the input: none at the end or if it cannot be read. */
    static function Taken(d: Decoded): nat {
      if d.c == RUNE_ERROR then 0 else d.size
    }

    /** The next get finds a whole rune: enough is unread, or a refill gets something and has room for a rune. */
    predicate Ready()
      requires Valid()
      reads this, raw
    {
      len > 8 || (Yields() && (open ==> len + Room() >= 4))
    }

    /**
     * get: as long as every refill gets something and has room for a rune, which it always has if the buffer has at least
     * 13 bytes, the rune is the next one of all that is ahead, no matter where the buffer ends, and every marked text grows
     * by exactly its bytes.
     */
    method Get() returns (d: Decoded)
      requires Valid() && raw.Length > 8
      modifies this, raw
      ensures Valid() && (raw == old(raw) || fresh(raw))
      ensures old(len <= 8 && Yields() && raw.Length >= 13) ==> old(Ready())
      ensures old(Ready()) ==>
        && d == DecodeAt(old(Ahead()), 0)
        && Ahead() == old(Ahead())[Taken(d)..]
        && MarkedTexts() == Extended(old(MarkedTexts()), old(Ahead())[..Taken(d)])
    {
      ghost var ahead, texts, sound := Ahead(), MarkedTexts(), Ready();
      if len <= 8 {
        Refill();
      }
      ghost var stream := if sound then Ahead() else [];
      if sound { DecodeInPrefix(Unread(), ahead); }
      d := DecodeAt(raw[pos..rawLen], 0);
      Advance(Taken(d));
    }

    method Advance(n: nat)
      requires Valid() && n <= len
      modifies `pos, `len
      ensures Valid() && pos == old(pos) + n
      ensures Unread() == old(Unread())[n..] && Ahead() == old(Ahead())[n..]
      ensures MarkedTexts() == Extended(old(MarkedTexts()), old(Ahead())[..n])
    {
      ghost var before, ahead := pos, Ahead();
      pos := pos + n;
      len := len - n;
      Advanced(raw[..], rawLen, before, pos, marks, if open then rest else []);
    }

    method PushMark()
      requires Valid()
      modifies `marks
      ensures Valid() && MarkedTexts() == old(MarkedTexts()) + [[]]
    {
      marks := marks + [pos];
    }

    method PopMark()
      requires Valid()
      modifies `marks
      ensures Valid()
      ensures MarkedTexts() == if old(marks) == [] then [] else old(MarkedTexts())[..|old(marks)| - 1]
    {
      if |marks| > 0 {
        marks := marks[..|marks| - 1];
      }
    }

    method CopyFromMark() returns (r: Bytes)
      requires Valid() && marks != []
      ensures r == MarkedTexts()[|marks| - 1]
    {
      r := raw[marks[|marks| - 1]..pos];
      assert r == raw[..][marks[|marks| - 1]..pos];
    }

    /** The cursor is where it was; the retained bytes have moved to the front, and the marks with them. */
    twostate predicate Displaced()
      requires old(Valid())
      reads this, raw
    {
      && raw == old(raw)
      && pos == old(pos) && rawLen == old(rawLen) && len == old(len)
      && marks == Shifted(old(marks), if old(marks) == [] then 0 else old(marks)[0])
      && var m := old(Oldest());
      && raw[..rawLen - m] == old(raw[m..rawLen])
    }

    /** The state that a refill without a byte leaves: bytes and marks have moved, the cursor has not. */
    twostate predicate Stale()
      requires old(Valid())
      reads this, raw
    {
      && Displaced()
      && var m := old(Oldest());
      && raw[rawLen - m..] == old(raw[rawLen - m..])
    }
  }

  /** What is taken off the input is the encoding of the rune that stands there; nothing is taken of what cannot be read. */
  lemma TakesOneRune(s: Bytes, i: nat, r: Rune)
    requires i <= |s| && Strings.IsScalar(r) && r != RUNE_ERROR
    ensures var d := DecodeAt(s, i);
      && (i < |s| && StandsAt(Strings.Encode(r), s, i) ==> d.c == r && Stream.Taken(d) == |Strings.Encode(r)|)
      && (Stream.Taken(d) > 0 ==> i < |s| && Strings.IsScalar(d.c) && StandsAt(Strings.Encode(d.c), s, i) && Stream.Taken(d) == |Strings.Encode(d.c)|)
      && (d.c == RUNE_ERROR ==> Stream.Taken(d) == 0)
  {
    hide Strings.Encode, DecodeAt;
    if i < |s| {
      Strings.DecodesExactly(s, i, r);
      if !Malformed(s, i) { Strings.DecodedIsEncoded(s, i); }
    }
  }

  function Extended(texts: seq<Bytes>, more: Bytes): (r: seq<Bytes>)
    ensures |r| == |texts| && forall k :: 0 <= k < |r| ==> r[k] == texts[k] + more
  {
    seq(|texts|, k requires 0 <= k < |texts| => texts[k] + more)
  }

  lemma Advanced(raw: Bytes, end: nat, pos: nat, next: nat, marks: seq<nat>, rest: Bytes)
    requires pos <= next <= end <= |raw| && forall k :: 0 <= k < |marks| ==> marks[k] <= pos
    ensures raw[next..end] == raw[pos..end][next - pos..]
    ensures raw[next..end] + rest == (raw[pos..end] + rest)[next - pos..]
    ensures Texts(raw, marks, next) == Extended(Texts(raw, marks, pos), (raw[pos..end] + rest)[..next - pos])
  {
    assert (raw[pos..end] + rest)[..next - pos] == raw[pos..next];
    forall k | 0 <= k < |marks| ensures raw[marks[k]..next] == raw[marks[k]..pos] + raw[pos..next] {}
  }

  /** Four bytes are enough to decode a rune, and so is all there is. */
  lemma DecodeInPrefix(s: Bytes, t: Bytes)
    requires s <= t && (|s| >= 4 || s == t)
    ensures DecodeAt(s, 0) == DecodeAt(t, 0)
  {
    if |s| >= 4 {
      assert s[0] == t[0] && s[1] == t[1] && s[2] == t[2] && s[3] == t[3];
    }
  }

  /** Cutting off the first m0 bytes and appending what was delivered. */
  lemma KeepsText(before: Bytes, m0: nat, pos: nat, end: nat, after: Bytes, retain: nat, n: nat, delivered: Bytes)
    requires m0 <= pos <= end <= |before| && retain == end - m0 && retain + n <= |after| && n <= |delivered|
    requires after[..retain] == before[m0..end] && after[retain..retain + n] == delivered[..n]
    ensures after[pos - m0..retain + n] == before[pos..end] + delivered[..n]
  {
    assert after[pos - m0..retain + n] == after[..retain][pos - m0..] + after[retain..retain + n];
    assert before[m0..end][pos - m0..] == before[pos..end];
  }

  lemma ShiftedInOrder(marks: seq<nat>, pos: nat)
    requires Ordered(marks, pos)
    ensures forall k :: 0 <= k < |marks| ==> (if marks == [] then 0 else marks[0]) <= marks[k]
    ensures Ordered(Shifted(marks, if marks == [] then 0 else marks[0]), pos)
  {}

  lemma KeepsMarks(before: Bytes, m0: nat, pos: nat, end: nat, marks: seq<nat>, after: Bytes, retain: nat)
    requires m0 <= pos <= end <= |before| && retain == end - m0 && retain <= |after| && after[..retain] == before[m0..end]
    requires Ordered(marks, pos) && (forall k :: 0 <= k < |marks| ==> m0 <= marks[k]) && (marks != [] ==> m0 == marks[0])
    ensures var d := if marks == [] then 0 else marks[0];
      Ordered(Shifted(marks, d), pos - m0) && Texts(after, Shifted(marks, d), pos - m0) == Texts(before, marks, pos)
  {
    var d := if marks == [] then 0 else marks[0];
    forall k | 0 <= k < |marks| ensures Texts(after, Shifted(marks, d), pos - m0)[k] == Texts(before, marks, pos)[k] {
      var m := marks[k];
      SliceOfSlice(after, 0, retain, m - m0, pos - m0);
      SliceOfSlice(before, m0, end, m - m0, pos - m0);
    }
  }

  /**
   * When a refill gets no byte, marks move but the cursor does not: the marked texts survive exactly when the oldest
   * mark is at the start of the buffer.
   */
  lemma StaleMarks(before: Bytes, after: Bytes, marks: seq<nat>, pos: nat, end: nat)
    requires marks != [] && Ordered(marks, pos) && pos <= end <= |before| && |after| == |before|
    requires after[..end - marks[0]] == before[marks[0]..end]
    ensures (forall k :: 0 <= k < |marks| ==> Shifted(marks, marks[0])[k] <= pos)
    ensures Texts(after, Shifted(marks, marks[0]), pos) == Texts(before, marks, pos) <==> marks[0] == 0
  {
    var shifted := Shifted(marks, marks[0]);
    if marks[0] == 0 {
      assert shifted == marks;
      forall k | 0 <= k < |marks| ensures after[marks[k]..pos] == before[marks[k]..pos] {
        SliceOfSlice(after, 0, end, marks[k], pos);
        SliceOfSlice(before, 0, end, marks[k], pos);
      }
    } else {
      assert |Texts(after, shifted, pos)[0]| == pos;
      assert |Texts(before, marks, pos)[0]| == pos - marks[0];
    }
  }

  lemma AfterMove(before: Bytes, after: Bytes, m: nat, end: nat, k: nat)
    requires m <= end <= |before| && |after| == |before| && k < end
    requires after[..end - m] == before[m..end] && after[end - m..] == before[end - m..]
    ensures after[k] == if k < end - m then before[k + m] else before[k]
  {
    if k < end - m {
      assert after[k] == after[..end - m][k] == before[m..end][k];
    } else {
      assert after[k] == after[end - m..][k - (end - m)] == before[end - m..][k - (end - m)];
    }
  }

  /** The unread input survives such a refill exactly when its overlap with the moved bytes repeats them. */
  lemma StaleInput(before: Bytes, after: Bytes, m: nat, pos: nat, end: nat)
    requires m <= pos <= end <= |before| && |after| == |before|
    requires after[..end - m] == before[m..end] && after[end - m..] == before[end - m..]
    ensures after[pos..end] == before[pos..end] <==> forall k :: pos <= k < end - m ==> before[k + m] == before[k]
  {
    forall k: nat | pos <= k < end
      ensures after[k] == if k < end - m then before[k + m] else before[k]
    {
      AfterMove(before, after, m, end, k);
    }
    if after[pos..end] == before[pos..end] {
      forall k | pos <= k < end - m ensures before[k + m] == before[k] {
        assert after[pos..end][k - pos] == before[pos..end][k - pos];
      }
    }
    if forall k :: pos <= k < end - m ==> before[k + m] == before[k] {
      forall x | 0 <= x < end - pos ensures after[pos..end][x] == before[pos..end][x] {
        assert after[pos + x] == before[pos + x];
      }
    }
  }
}
