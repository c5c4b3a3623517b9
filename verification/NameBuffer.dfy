/** How the strings of retrieved methods are packed into the caller's name buffer. */
module NameBuffer {
  import opened DictionarySpec
  import opened Options

  const NUL: char := '\0'

  /** The strings of an entry one after the other, each with its terminator. */
  function PackEntry(vals: Values): string {
    if vals == [] then []
    else (if vals[0].Some? then vals[0].value + [NUL] else []) + PackEntry(vals[1..])
  }

  /** Where the strings of an entry start when it is packed from position `pos` on; NULL for a missing one. */
  function Offsets(vals: Values, pos: nat): seq<Option<nat>> {
    if vals == [] then []
    else if vals[0].None? then [None] + Offsets(vals[1..], pos)
    else [Some(pos)] + Offsets(vals[1..], pos + |vals[0].value| + 1)
  }

  /** The packed strings of all retrieved descriptions, in order. */
  function PackAll(descs: seq<Description>): string
    decreases |descs|
  {
    if descs == [] then []
    else
      var n := |descs| - 1;
      PackAll(descs[..n]) + (if descs[n].reason.Retrieved? then PackEntry(descs[n].values) else [])
  }

  lemma {:induction false} PackEntryLength(vals: Values)
    ensures |PackEntry(vals)| == NameBytes(vals) && |Offsets(vals, 0)| == |vals|
    decreases |vals|
  {
    if vals != [] {
      PackEntryLength(vals[1..]);
      OffsetsLength(vals[1..], 0, if vals[0].None? then 0 else |vals[0].value| + 1);
    }
  }

  lemma {:induction false} OffsetsLength(vals: Values, a: nat, b: nat)
    ensures |Offsets(vals, a)| == |vals| == |Offsets(vals, b)|
    decreases |vals|
  {
    if vals != [] {
      var step := if vals[0].None? then 0 else |vals[0].value| + 1;
      OffsetsLength(vals[1..], a + step, b + step);
    }
  }

  lemma {:induction false} PackEntryAppend(a: Values, b: Values)
    ensures PackEntry(a + b) == PackEntry(a) + PackEntry(b)
    decreases |a|
  {
    if a == [] {
      assert a + b == b;
    } else {
      assert (a + b)[1..] == a[1..] + b;
      PackEntryAppend(a[1..], b);
    }
  }

  lemma {:induction false} OffsetsAppend(a: Values, b: Values, pos: nat)
    ensures Offsets(a + b, pos) == Offsets(a, pos) + Offsets(b, pos + NameBytes(a))
    decreases |a|
  {
    if a == [] {
      assert a + b == b;
    } else {
      assert (a + b)[1..] == a[1..] + b;
      OffsetsAppend(a[1..], b, pos + (if a[0].None? then 0 else |a[0].value| + 1));
    }
  }

  /** One more string at the end of an entry. */
  lemma PackOneMore(vals: Values, i: nat, pos: nat)
    requires i < |vals|
    ensures var more := if vals[i].Some? then vals[i].value + [NUL] else [];
            && PackEntry(vals[..i + 1]) == PackEntry(vals[..i]) + more
            && Offsets(vals[..i + 1], pos)
                 == Offsets(vals[..i], pos) + [if vals[i].Some? then Some(pos + NameBytes(vals[..i])) else None]
            && NameBytes(vals[..i + 1]) == NameBytes(vals[..i]) + |more|
  {
    assert vals[..i + 1] == vals[..i] + [vals[i]];
    PackEntryAppend(vals[..i], [vals[i]]);
    OffsetsAppend(vals[..i], [vals[i]], pos);
    assert [vals[i]][1..] == [];
    PackEntryLength(vals[..i]);
    PackEntryLength(vals[..i + 1]);
    PackEntryLength([vals[i]]);
  }

  // ---------------------------------------------------------------------------------------
  // Reading back
  // ---------------------------------------------------------------------------------------

  /** The C string that starts at `pos`. */
  function CStringAt(buffer: string, pos: nat): string
    decreases |buffer| - pos
  {
    if pos >= |buffer| || buffer[pos] == NUL then [] else [buffer[pos]] + CStringAt(buffer, pos + 1)
  }

  /** No string contains the terminator. */
  predicate CStrings(vals: Values) {
    forall i | 0 <= i < |vals| && vals[i].Some? :: NUL !in vals[i].value
  }

  /** `buffer` holds `s` from `pos` on. */
  predicate Holds(buffer: string, pos: nat, s: string) {
    pos + |s| <= |buffer| && buffer[pos..pos + |s|] == s
  }

  lemma HoldsParts(buffer: string, pos: nat, head: string, tail: string)
    requires Holds(buffer, pos, head + tail)
    ensures Holds(buffer, pos, head) && Holds(buffer, pos + |head|, tail)
  {
    var slice := buffer[pos..pos + |head| + |tail|];
    assert buffer[pos..pos + |head|] == slice[..|head|];
    assert buffer[pos + |head|..pos + |head| + |tail|] == slice[|head|..];
  }

  lemma {:induction false} ReadString(buffer: string, pos: nat, s: string)
    requires NUL !in s && Holds(buffer, pos, s + [NUL])
    ensures CStringAt(buffer, pos) == s
    decreases |s|
  {
    assert buffer[pos] == buffer[pos..pos + |s| + 1][0] == (s + [NUL])[0];
    if s != [] {
      assert s + [NUL] == [s[0]] + (s[1..] + [NUL]);
      HoldsParts(buffer, pos, [s[0]], s[1..] + [NUL]);
      ReadString(buffer, pos + 1, s[1..]);
    }
  }

  /**
   Round trip: in a buffer that holds a packed entry from `pos` on, the pointer of every property that is
   not NULL lies within the entry's slice and reads back exactly the stored string.
   */
  lemma {:induction false} ReadBack(buffer: string, pos: nat, vals: Values, i: nat)
    requires CStrings(vals) && i < |vals| && Holds(buffer, pos, PackEntry(vals))
    ensures |Offsets(vals, pos)| == |vals|
    ensures vals[i].None? <==> Offsets(vals, pos)[i].None?
    ensures vals[i].Some? ==>
              var at := Offsets(vals, pos)[i].value;
              && pos <= at && at + |vals[i].value| < pos + NameBytes(vals)
              && CStringAt(buffer, at) == vals[i].value
    decreases |vals|
  {
    OffsetsLength(vals, pos, pos);
    var head := if vals[0].Some? then vals[0].value + [NUL] else [];
    assert PackEntry(vals) == head + PackEntry(vals[1..]);
    HoldsParts(buffer, pos, head, PackEntry(vals[1..]));
    PackEntryLength(vals);
    PackEntryLength(vals[1..]);
    if i == 0 {
      if vals[0].Some? {
        ReadString(buffer, pos, vals[0].value);
      }
    } else {
      ReadBack(buffer, pos + |head|, vals[1..], i - 1);
    }
  }
}
