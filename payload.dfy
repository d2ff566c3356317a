/**
 * The text handling of one poll: the response body is stripped of
 * surrounding whitespace, one pair of surrounding double quotes is removed,
 * the result is split on ',' and counted, and an accepted frame is encoded
 * as ASCII bytes before it goes to the serial port.
 */
module Payload {

  datatype Option<T> = None | Some(value: T)

  /** A byte on the serial line. */
  type Byte = b: int | 0 <= b < 256

  /** The number of fields a frame must have. */
  const FrameFields: nat := 9

  /** Longest preview of a rejected payload that a diagnostic shows. */
  const PreviewLength: nat := 80

  // ---------------------------------------------------------------------
  // Whitespace stripping (Python's str.strip() with no argument)
  // ---------------------------------------------------------------------

  /** The ASCII characters Python's str.isspace() accepts: tab, line feed,
      vertical tab, form feed, carriage return, the four separators
      0x1C..0x1F, and space. */
  predicate IsSpace(c: char) {
    c == ' ' || 9 <= c as int <= 13 || 28 <= c as int <= 31
  }

  predicate AllSpace(s: string) {
    forall i | 0 <= i < |s| :: IsSpace(s[i])
  }

  /** Drops leading whitespace: what is left is a suffix of s, what was
      dropped is all whitespace, and what is left does not start with any. */
  function StripStart(s: string): (r: string)
    ensures |r| <= |s| && r == s[|s| - |r|..]
    ensures r == [] || !IsSpace(r[0])
  {
    if s != [] && IsSpace(s[0]) then StripStart(s[1..]) else s
  }

  lemma {:induction false} StripStartDrops(s: string)
    ensures forall k | 0 <= k < |s| - |StripStart(s)| :: IsSpace(s[k])
  {
    if s != [] && IsSpace(s[0]) {
      StripStartDrops(s[1..]);
      forall k | 1 <= k < |s| - |StripStart(s)| ensures IsSpace(s[k]) {
        assert s[k] == s[1..][k - 1];
      }
    }
  }

  /** Drops trailing whitespace: what is left is a prefix of s, what was
      dropped is all whitespace, and what is left does not end with any. */
  function StripEnd(s: string): (r: string)
    ensures |r| <= |s| && r == s[..|r|]
    ensures r == [] || !IsSpace(r[|r| - 1])
  {
    if s != [] && IsSpace(s[|s| - 1]) then StripEnd(s[..|s| - 1]) else s
  }

  lemma {:induction false} StripEndDrops(s: string)
    ensures forall k | |StripEnd(s)| <= k < |s| :: IsSpace(s[k])
  {
    if s != [] && IsSpace(s[|s| - 1]) {
      StripEndDrops(s[..|s| - 1]);
      forall k | |StripEnd(s)| <= k < |s| - 1 ensures IsSpace(s[k]) {
        assert s[k] == s[..|s| - 1][k];
      }
    }
  }

  /** Python's s.strip(): the result has no whitespace at either end, and it
      is empty exactly when s is all whitespace. */
  function Strip(s: string): (r: string)
    ensures |r| <= |s|
    ensures r == [] || (!IsSpace(r[0]) && !IsSpace(r[|r| - 1]))
  {
    var t := StripStart(s);
    var r := StripEnd(t);
    assert r != [] ==> r[0] == t[0];
    r
  }

  /** Strip removes only whitespace, and only from the two ends: the result
      is the slice s[i..j], with all of s[..i] and s[j..] whitespace. */
  lemma StripIsSlice(s: string) returns (i: nat, j: nat)
    ensures i <= j <= |s| && Strip(s) == s[i..j]
    ensures forall k | 0 <= k < i :: IsSpace(s[k])
    ensures forall k | j <= k < |s| :: IsSpace(s[k])
  {
    var t := StripStart(s);
    var r := StripEnd(t);
    StripStartDrops(s);
    StripEndDrops(t);
    i, j := |s| - |t|, |s| - |t| + |r|;
    assert t == s[i..];
    forall k | j <= k < |s| ensures IsSpace(s[k]) {
      assert s[k] == t[k - i];
    }
  }

  /** Strip leaves nothing exactly when the text is all whitespace. */
  lemma StripEmpty(s: string)
    ensures Strip(s) == [] <==> AllSpace(s)
  {
    var i, j := StripIsSlice(s);
    if Strip(s) != [] {
      assert Strip(s)[0] == s[i];
    }
  }

  /** The reverse direction: whitespace around a text with no whitespace at
      its ends is exactly what Strip removes. */
  lemma {:induction false} StripSurrounded(a: string, m: string, b: string)
    requires AllSpace(a) && AllSpace(b)
    requires m == [] || (!IsSpace(m[0]) && !IsSpace(m[|m| - 1]))
    ensures Strip(a + m + b) == m
  {
    var s := a + m + b;
    var i, j := StripIsSlice(s);
    assert forall k | 0 <= k < |s| :: s[k] == if k < |a| then a[k]
                                             else if k < |a| + |m| then m[k - |a|]
                                             else b[k - |a| - |m|];
    if m == [] {
      StripEmpty(s);
    } else {
      // Neither end of m can have been cut away, and no whitespace of a or b kept.
      assert s[|a|] == m[0] && s[|a| + |m| - 1] == m[|m| - 1];
      assert i <= |a| && |a| + |m| <= j;
      assert Strip(s)[0] == s[i] && Strip(s)[j - i - 1] == s[j - 1];
      assert i == |a| && j == |a| + |m|;
    }
  }

  lemma {:induction false} StripIdempotent(s: string)
    ensures Strip(Strip(s)) == Strip(s)
  {
    StripSurrounded([], Strip(s), []);
    assert [] + Strip(s) + [] == Strip(s);
  }

  // ---------------------------------------------------------------------
  // Removing one pair of surrounding double quotes
  // ---------------------------------------------------------------------

  /** The test of bridge.py: starts with '"' and ends with '"'. A lone '"'
      passes it, since its first and last characters are the same one. */
  predicate IsQuoted(s: string) {
    |s| >= 1 && s[0] == '"' && s[|s| - 1] == '"'
  }

  /** Python's data[1:-1] applied when the text is quoted: exactly the first
      and last characters go (a lone '"' becomes ""); otherwise the text is
      left as it is. */
  function Unquote(s: string): (r: string)
    ensures !IsQuoted(s) ==> r == s
    ensures IsQuoted(s) ==> |r| == (if |s| >= 2 then |s| - 2 else 0)
  {
    if IsQuoted(s) then
      if |s| >= 2 then s[1..|s| - 1] else []
    else
      s
  }

  /** A quoted text loses exactly its first and last characters: what is
      left is the text in between, in order. */
  lemma UnquoteDropsEnds(s: string)
    requires IsQuoted(s)
    ensures forall k | 0 <= k < |Unquote(s)| :: Unquote(s)[k] == s[k + 1]
  {
  }

  /** Unquote undoes wrapping in quotes, whatever the text inside. */
  lemma UnquoteQuoted(t: string)
    ensures Unquote("\"" + t + "\"") == t
  {
    var s := "\"" + t + "\"";
    assert s[1..|s| - 1] == t;
  }

  /** The payload as bridge.py keeps it: stripped, then unquoted. */
  function Normalise(text: string): (data: string)
    ensures |data| <= |text|
  {
    Unquote(Strip(text))
  }

  /** A body of nothing but whitespace gives the empty payload. */
  lemma NormaliseBlank(text: string)
    requires AllSpace(text)
    ensures Normalise(text) == []
  {
    StripEmpty(text);
  }

  /** A quoted body, padded with whitespace, normalises to what was quoted. */
  lemma NormaliseQuoted(a: string, t: string, b: string)
    requires AllSpace(a) && AllSpace(b)
    ensures Normalise(a + "\"" + t + "\"" + b) == t
  {
    var m := "\"" + t + "\"";
    assert a + "\"" + t + "\"" + b == a + m + b;
    StripSurrounded(a, m, b);
    UnquoteQuoted(t);
  }

  /** A bare body with no whitespace at its ends and no quote at one of its
      ends passes through unchanged. */
  lemma NormaliseBare(a: string, t: string, b: string)
    requires AllSpace(a) && AllSpace(b)
    requires t == [] || (!IsSpace(t[0]) && !IsSpace(t[|t| - 1]))
    requires !IsQuoted(t)
    ensures Normalise(a + t + b) == t
  {
    StripSurrounded(a, t, b);
  }

  // ---------------------------------------------------------------------
  // Splitting on ',' (Python's str.split(','), no quoting rules)
  // ---------------------------------------------------------------------

  function CommaCount(s: string): nat {
    if s == [] then 0 else (if s[0] == ',' then 1 else 0) + CommaCount(s[1..])
  }

  /** Python's s.split(','): one field more than there are commas (the
      empty text splits into one empty field). */
  function Split(s: string): (fields: seq<string>)
    ensures |fields| == CommaCount(s) + 1
  {
    if s == [] then
      [[]]
    else
      var rest := Split(s[1..]);
      if s[0] == ',' then [[]] + rest else [[s[0]] + rest[0]] + rest[1..]
  }

  /** No field of a split holds a comma. */
  lemma {:induction false} SplitFieldsHaveNoComma(s: string)
    ensures forall k | 0 <= k < |Split(s)| :: ',' !in Split(s)[k]
  {
    if s != [] {
      SplitFieldsHaveNoComma(s[1..]);
      var rest := Split(s[1..]);
      if s[0] != ',' {
        assert ',' !in [s[0]] + rest[0];
      }
    }
  }

  /** Python's ','.join(fields). */
  function Join(fields: seq<string>): string
    requires |fields| >= 1
  {
    if |fields| == 1 then fields[0] else fields[0] + "," + Join(fields[1..])
  }

  /** Joining the fields back with ',' gives the text that was split. */
  lemma {:induction false} JoinSplit(s: string)
    ensures Join(Split(s)) == s
  {
    if s != [] {
      var rest := Split(s[1..]);
      JoinSplit(s[1..]);
      if s[0] == ',' {
        assert Split(s) == [[]] + rest;
        assert ([[]] + rest)[1..] == rest;
        assert s == [] + "," + s[1..];
      } else if |rest| == 1 {
        assert Split(s) == [[s[0]] + rest[0]];
      } else {
        assert Split(s) == [[s[0]] + rest[0]] + rest[1..];
        assert Join(rest) == rest[0] + "," + Join(rest[1..]);
        assert ([[s[0]] + rest[0]] + rest[1..])[1..] == rest[1..];
        assert s == [s[0]] + s[1..];
      }
    }
  }

  /** A comma-free text followed by ',' splits off as one field. */
  lemma {:induction false} SplitAfterField(f: string, t: string)
    requires ',' !in f
    ensures Split(f + "," + t) == [f] + Split(t)
  {
    if f == [] {
      assert f + "," + t == [','] + t;
      assert ([','] + t)[1..] == t;
    } else {
      var s := f + "," + t;
      assert s[0] == f[0] && s[1..] == f[1..] + "," + t;
      SplitAfterField(f[1..], t);
      assert [f[0]] + f[1..] == f;
    }
  }

  /** A comma-free text is a single field. */
  lemma {:induction false} SplitField(f: string)
    requires ',' !in f
    ensures Split(f) == [f]
  {
    if f != [] {
      SplitField(f[1..]);
      assert [f[0]] + f[1..] == f;
    }
  }

  /** Splitting the join of comma-free fields gives those fields back. */
  lemma {:induction false} SplitJoin(fields: seq<string>)
    requires |fields| >= 1
    requires forall k | 0 <= k < |fields| :: ',' !in fields[k]
    ensures Split(Join(fields)) == fields
  {
    if |fields| == 1 {
      SplitField(fields[0]);
    } else {
      SplitJoin(fields[1..]);
      SplitAfterField(fields[0], Join(fields[1..]));
      assert [fields[0]] + fields[1..] == fields;
    }
  }

  /** The acceptance test of bridge.py: exactly nine fields. */
  predicate IsFrame(data: string) {
    |Split(data)| == FrameFields
  }

  /** A frame is a text with exactly eight commas; in particular it is never
      empty, so it always differs from the initial last frame "". */
  lemma FrameCommas(data: string)
    ensures IsFrame(data) <==> CommaCount(data) == 8
    ensures IsFrame(data) ==> data != []
  {
  }

  /** Python's data[:80]: a prefix of at most 80 characters, all of the
      text when it is short enough. */
  function Preview(data: string): (p: string)
    ensures |p| <= PreviewLength
    ensures p <= data
    ensures |data| <= PreviewLength ==> p == data
    ensures |data| > PreviewLength ==> |p| == PreviewLength
  {
    if |data| <= PreviewLength then data else data[..PreviewLength]
  }

  // ---------------------------------------------------------------------
  // ASCII encoding (Python's str.encode("ascii"))
  // ---------------------------------------------------------------------

  predicate IsAscii(s: string) {
    forall k | 0 <= k < |s| :: s[k] as int < 128
  }

  /** Encoding succeeds exactly on ASCII text, and then gives one byte per
      character, equal to its code, in the same order. */
  function Encode(s: string): (r: Option<seq<Byte>>)
    ensures r.Some? <==> IsAscii(s)
    ensures r.Some? ==> |r.value| == |s|
  {
    if s == [] then
      Some([])
    else if s[0] as int < 128 then
      match Encode(s[1..])
      case Some(tail) => Some([s[0] as int] + tail)
      case None => None
    else
      None
  }

  /** Each byte of the encoding is the code of the character at the same
      place. */
  lemma {:induction false} EncodeBytes(s: string)
    requires IsAscii(s)
    ensures forall k | 0 <= k < |s| :: Encode(s).value[k] == s[k] as int
  {
    if s != [] {
      EncodeBytes(s[1..]);
      assert Encode(s).value == [s[0] as int] + Encode(s[1..]).value;
    }
  }

  /** Reads bytes back as text, one character per byte. */
  function Decode(bytes: seq<Byte>): string
  {
    if bytes == [] then [] else [bytes[0] as char] + Decode(bytes[1..])
  }

  /** Encoding loses nothing: decoding the bytes gives the text back. */
  lemma {:induction false} DecodeEncode(s: string)
    requires IsAscii(s)
    ensures Decode(Encode(s).value) == s
  {
    if s != [] {
      DecodeEncode(s[1..]);
      assert Encode(s).value == [s[0] as int] + Encode(s[1..]).value;
      assert ([s[0] as int] + Encode(s[1..]).value)[1..] == Encode(s[1..]).value;
    }
  }

  /** A line is ASCII exactly when its text is: "\n" is ASCII. */
  lemma LineIsAscii(s: string)
    ensures IsAscii(s + "\n") <==> IsAscii(s)
  {
    assert forall k | 0 <= k < |s| :: (s + "\n")[k] == s[k];
  }

  /** Encoding distributes over concatenation. */
  lemma {:induction false} EncodeAppend(s: string, t: string)
    requires IsAscii(s) && IsAscii(t)
    ensures IsAscii(s + t)
    ensures Encode(s + t).value == Encode(s).value + Encode(t).value
  {
    assert forall k | 0 <= k < |s + t| :: (s + t)[k] == if k < |s| then s[k] else t[k - |s|];
    EncodeBytes(s);
    EncodeBytes(t);
    EncodeBytes(s + t);
  }
}
