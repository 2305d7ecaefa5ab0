/** ECMAScript's `encodeURIComponent` and `decodeURIComponent` (section 19.2.6
    of ECMA-262), which apply the percent-encoding of section 2.1 of RFC 3986.
    A string is taken here as the UTF-8 bytes of the text it stands for: each
    character below 256 is one byte, so the UTF-8 encoding and decoding steps
    of the standard are left out and one `%HH` escape is one character. */
module UriComponent {
  import opened Wrappers

  /** Every character is one byte. */
  predicate IsByteString(s: string)
  {
    forall i | 0 <= i < |s| :: s[i] as int < 256
  }

  /** The characters `encodeURIComponent` leaves alone:
      `A-Z a-z 0-9 - _ . ! ~ * ' ( )`. */
  predicate IsUnreserved(c: char)
    ensures IsUnreserved(c) ==> c as int < 128 && c != '/' && c != '\\' && c != '%'
  {
    || 'A' <= c <= 'Z' || 'a' <= c <= 'z' || '0' <= c <= '9'
    || c == '-' || c == '_' || c == '.' || c == '!' || c == '~'
    || c == '*' || c == '\'' || c == '(' || c == ')'
  }

  /** Upper-case hexadecimal digit of `n`, as the encoder emits it. */
  function HexDigit(n: nat): (c: char)
    requires n < 16
    ensures '0' <= c <= '9' || 'A' <= c <= 'F'
    ensures IsHexDigit(c) && HexValue(c) == n
  {
    if n < 10 then ('0' as int + n) as char else ('A' as int + n - 10) as char
  }

  /** A hexadecimal digit in either case, as the decoder accepts it. */
  predicate IsHexDigit(c: char)
  {
    '0' <= c <= '9' || 'A' <= c <= 'F' || 'a' <= c <= 'f'
  }

  function HexValue(c: char): (n: nat)
    requires IsHexDigit(c)
    ensures n < 16
  {
    if '0' <= c <= '9' then c as int - '0' as int
    else if 'A' <= c <= 'F' then c as int - 'A' as int + 10
    else c as int - 'a' as int + 10
  }

  /** One byte: itself when unreserved, otherwise `%HH`. */
  function EncodeByte(c: char): (r: string)
    requires c as int < 256
    ensures '/' !in r && '\\' !in r
    ensures IsUnreserved(c) ==> r == [c]
    ensures !IsUnreserved(c) ==>
              && |r| == 3 && r[0] == '%' && IsHexDigit(r[1]) && IsHexDigit(r[2])
              && ('0' <= r[1] <= '9' || 'A' <= r[1] <= 'F') && ('0' <= r[2] <= '9' || 'A' <= r[2] <= 'F')
              && HexValue(r[1]) * 16 + HexValue(r[2]) == c as int
  {
    if IsUnreserved(c) then [c]
    else ['%', HexDigit(c as int / 16), HexDigit(c as int % 16)]
  }

  /** `encodeURIComponent(s)`. The result never holds a path separator,
      `/` or `\`, and is empty only for the empty input. */
  function Encode(s: string): (r: string)
    requires IsByteString(s)
    ensures '/' !in r && '\\' !in r
    ensures |r| >= |s|
    ensures r == [] <==> s == []
    decreases |s|
  {
    if s == [] then [] else EncodeByte(s[0]) + Encode(s[1..])
  }

  /** `decodeURIComponent(e)`: every `%HH` becomes the byte it names and
      every other character is kept; `None` is the `URIError` thrown for a
      `%` that is not followed by two hexadecimal digits. */
  function Decode(e: string): (r: Option<string>)
    ensures r.Some? ==> |r.value| <= |e|
    decreases |e|
  {
    if e == [] then Some([])
    else if e[0] != '%' then
      match Decode(e[1..])
      case None => None
      case Some(t) => Some([e[0]] + t)
    else if |e| >= 3 && IsHexDigit(e[1]) && IsHexDigit(e[2]) then
      match Decode(e[3..])
      case None => None
      case Some(t) => Some([(HexValue(e[1]) * 16 + HexValue(e[2])) as char] + t)
    else None
  }

  /** One escape in either case, `%HH` or `%hh`, decodes to the byte it
      names, in front of whatever the rest decodes to. */
  lemma DecodeEscape(h1: char, h2: char, rest: string)
    requires IsHexDigit(h1) && IsHexDigit(h2)
    ensures Decode(['%', h1, h2] + rest).Some? <==> Decode(rest).Some?
    ensures Decode(rest).Some? ==>
              Decode(['%', h1, h2] + rest).value == [(HexValue(h1) * 16 + HexValue(h2)) as char] + Decode(rest).value
  {
    var e := ['%', h1, h2] + rest;
    assert e[0] == '%' && e[1] == h1 && e[2] == h2;
    assert e[3..] == rest;
  }

  /** A character other than `%` is kept, in front of whatever the rest
      decodes to. */
  lemma DecodePlain(c: char, rest: string)
    requires c != '%'
    ensures Decode([c] + rest).Some? <==> Decode(rest).Some?
    ensures Decode(rest).Some? ==> Decode([c] + rest).value == [c] + Decode(rest).value
  {
    assert ([c] + rest)[1..] == rest;
  }

  /** `a + b` decodes to the decoding of `a` followed by that of `b`,
      whenever `a` decodes. */
  predicate DecodesPiecewise(a: string, b: string)
  {
    Decode(a).Some? ==>
      && (Decode(a + b).Some? <==> Decode(b).Some?)
      && (Decode(b).Some? ==> Decode(a + b).value == Decode(a).value + Decode(b).value)
  }

  /** Decoding works left to right: once a prefix decodes, the whole decodes
      to its decoding followed by the decoding of the rest. */
  lemma {:induction false} DecodeAppend(a: string, b: string)
    requires Decode(a).Some?
    ensures Decode(a + b).Some? <==> Decode(b).Some?
    ensures Decode(b).Some? ==> Decode(a + b).value == Decode(a).value + Decode(b).value
    decreases |a|
  {
    if a == [] {
      assert a + b == b;
    } else if a[0] != '%' {
      DecodeAppend(a[1..], b);
      PiecewiseAfterPlain(a[0], a[1..], b);
      assert a == [a[0]] + a[1..];
    } else {
      DecodeAppend(a[3..], b);
      PiecewiseAfterEscape(a[1], a[2], a[3..], b);
      assert a == ['%', a[1], a[2]] + a[3..];
    }
  }

  lemma PiecewiseAfterPlain(c: char, tail: string, b: string)
    requires c != '%' && DecodesPiecewise(tail, b)
    ensures DecodesPiecewise([c] + tail, b)
  {
    assert ([c] + tail) + b == [c] + (tail + b);
    DecodePlain(c, tail);
    DecodePlain(c, tail + b);
    if Decode(tail).Some? && Decode(b).Some? {
      var x, y := Decode(tail).value, Decode(b).value;
      assert [c] + (x + y) == ([c] + x) + y;
    }
  }

  lemma PiecewiseAfterEscape(h1: char, h2: char, tail: string, b: string)
    requires IsHexDigit(h1) && IsHexDigit(h2) && DecodesPiecewise(tail, b)
    ensures DecodesPiecewise(['%', h1, h2] + tail, b)
  {
    assert (['%', h1, h2] + tail) + b == ['%', h1, h2] + (tail + b);
    DecodeEscape(h1, h2, tail);
    DecodeEscape(h1, h2, tail + b);
    if Decode(tail).Some? && Decode(b).Some? {
      var c := [(HexValue(h1) * 16 + HexValue(h2)) as char];
      var x, y := Decode(tail).value, Decode(b).value;
      assert c + (x + y) == (c + x) + y;
    }
  }

  /** Decoding undoes encoding on every byte string. */
  lemma {:induction false} DecodeEncode(s: string)
    requires IsByteString(s)
    ensures Decode(Encode(s)) == Some(s)
    decreases |s|
  {
    if s != [] {
      var head, rest := EncodeByte(s[0]), Encode(s[1..]);
      var e := head + rest;
      assert Encode(s) == e;
      DecodeEncode(s[1..]);
      if IsUnreserved(s[0]) {
        assert e[0] == s[0] && e[0] != '%';
        assert e[1..] == rest;
      } else {
        assert e[..3] == head;
        assert e[3..] == rest;
      }
      assert [s[0]] + s[1..] == s;
    }
  }

  /** A `%` not followed by two hexadecimal digits. */
  predicate BadEscapeAt(e: string, i: int)
  {
    0 <= i < |e| && e[i] == '%' && !(i + 2 < |e| && IsHexDigit(e[i + 1]) && IsHexDigit(e[i + 2]))
  }

  /** Decoding fails exactly when the input holds a malformed escape. */
  lemma {:induction false} DecodeFailsIff(e: string)
    ensures Decode(e).None? <==> exists i :: BadEscapeAt(e, i)
    decreases |e|
  {
    if e == [] {
    } else if e[0] != '%' {
      DecodeFailsIff(e[1..]);
      assert !BadEscapeAt(e, 0);
      BadEscapeAfter(e, 1);
    } else if |e| >= 3 && IsHexDigit(e[1]) && IsHexDigit(e[2]) {
      DecodeFailsIff(e[3..]);
      assert !BadEscapeAt(e, 0) && !BadEscapeAt(e, 1) && !BadEscapeAt(e, 2);
      BadEscapeAfter(e, 3);
    } else {
      assert BadEscapeAt(e, 0);
    }
  }

  /** When the first `k` characters hold no malformed escape, `e` has one
      exactly when `e[k..]` has. */
  lemma BadEscapeAfter(e: string, k: nat)
    requires k <= |e|
    requires forall i | 0 <= i < k :: !BadEscapeAt(e, i)
    ensures (exists i :: BadEscapeAt(e, i)) <==> (exists i :: BadEscapeAt(e[k..], i))
  {
    if i :| BadEscapeAt(e, i) {
      assert BadEscapeAt(e[k..], i - k);
    }
    if i :| BadEscapeAt(e[k..], i) {
      assert BadEscapeAt(e, i + k);
    }
  }

  /** A string without `%` decodes to itself. */
  lemma {:induction false} DecodeWithoutEscapes(e: string)
    requires '%' !in e
    ensures Decode(e) == Some(e)
    decreases |e|
  {
    if e != [] {
      DecodeWithoutEscapes(e[1..]);
      assert [e[0]] + e[1..] == e;
    }
  }
}
