/**
 * Percent-encoding of URI components as `encodeURIComponent` does it (section 2.1 of RFC 3986,
 * over the UTF-8 bytes of each character), the decoding that undoes it, and the way the server
 * reads one parameter out of a query string.
 */
module Uri {
  import opened Wrappers
  import opened Text
  import Collections

  /** The characters `encodeURIComponent` leaves as they are. */
  predicate Unreserved(c: char)
  {
    ('A' <= c <= 'Z') || ('a' <= c <= 'z') || ('0' <= c <= '9') ||
    c == '-' || c == '_' || c == '.' || c == '!' || c == '~' || c == '*' || c == '\'' || c == '(' || c == ')'
  }

  /** The UTF-8 bytes of one Unicode scalar value. */
  function Utf8(c: char): (r: seq<nat>)
    ensures 1 <= |r| <= 4
    ensures forall k :: 0 <= k < |r| ==> r[k] < 256
    ensures |r| == 1 <==> c as int < 0x80
    ensures |r| == 1 ==> r[0] == c as int
  {
    var n := c as int;
    if n < 0x80 then [n]
    else if n < 0x800 then [0xC0 + n / 64, 0x80 + n % 64]
    else if n < 0x10000 then [0xE0 + n / 4096, 0x80 + (n / 64) % 64, 0x80 + n % 64]
    else [0xF0 + n / 262144, 0x80 + (n / 4096) % 64, 0x80 + (n / 64) % 64, 0x80 + n % 64]
  }

  function Utf8String(s: string): seq<nat>
  {
    if s == [] then [] else Utf8(s[0]) + Utf8String(s[1..])
  }

  /** An upper-case hexadecimal digit. */
  function HexDigit(d: nat): (c: char)
    requires d < 16
    ensures Unreserved(c)
    ensures DigitValue(c, 16) == Some(d)
  {
    if d < 10 then ('0' as int + d) as char else ('A' as int + d - 10) as char
  }

  function EncodeBytes(bs: seq<nat>): (r: string)
    requires forall k :: 0 <= k < |bs| ==> bs[k] < 256
    ensures |r| == 3 * |bs|
    ensures forall k :: 0 <= k < |r| ==> Unreserved(r[k]) || r[k] == '%'
  {
    if bs == [] then [] else ['%', HexDigit(bs[0] / 16), HexDigit(bs[0] % 16)] + EncodeBytes(bs[1..])
  }

  function EncodeChar(c: char): (r: string)
    ensures forall k :: 0 <= k < |r| ==> Unreserved(r[k]) || r[k] == '%'
  {
    if Unreserved(c) then [c] else EncodeBytes(Utf8(c))
  }

  /**
   * `encodeURIComponent(s)`: unreserved characters are kept and every other character becomes the
   * `%XX` escapes of its UTF-8 bytes, so the result holds no `&`, `=`, `?`, `#` or space.
   */
  function EncodeURIComponent(s: string): (r: string)
    ensures forall k :: 0 <= k < |r| ==> Unreserved(r[k]) || r[k] == '%'
    ensures (forall k :: 0 <= k < |s| ==> Unreserved(s[k])) ==> r == s
  {
    if s == [] then []
    else
      var rest := EncodeURIComponent(s[1..]);
      assert (forall k :: 0 <= k < |s| ==> Unreserved(s[k])) ==> [s[0]] + s[1..] == s;
      EncodeChar(s[0]) + rest
  }

  lemma NoSeparatorInEncoded(s: string)
    ensures '&' !in EncodeURIComponent(s) && '=' !in EncodeURIComponent(s)
  {
    var r := EncodeURIComponent(s);
    forall k | 0 <= k < |r| ensures r[k] != '&' && r[k] != '=' {
      assert Unreserved(r[k]) || r[k] == '%';
    }
  }

  function Prepend(bs: seq<nat>, rest: Option<seq<nat>>): Option<seq<nat>>
  {
    if rest.Some? then Some(bs + rest.value) else None
  }

  /** The bytes `decodeURIComponent` reads: `%XX` escapes in either case, and ASCII characters as themselves. */
  function PercentDecode(t: string): (r: Option<seq<nat>>)
    decreases |t|
  {
    if t == [] then Some([])
    else if t[0] == '%' then
      if |t| >= 3 && DigitValue(t[1], 16).Some? && DigitValue(t[2], 16).Some? then
        Prepend([16 * DigitValue(t[1], 16).value + DigitValue(t[2], 16).value], PercentDecode(t[3..]))
      else None
    else if (t[0] as int) < 0x80 then Prepend([t[0] as int], PercentDecode(t[1..]))
    else None
  }

  /** One `%XX` escape decodes to its byte, and decoding goes on after it. */
  lemma DecodeEscape(b: nat, rest: string)
    requires b < 256
    ensures PercentDecode(['%', HexDigit(b / 16), HexDigit(b % 16)] + rest) == Prepend([b], PercentDecode(rest))
  {
    var u := ['%', HexDigit(b / 16), HexDigit(b % 16)] + rest;
    assert u[0] == '%' && u[1] == HexDigit(b / 16) && u[2] == HexDigit(b % 16);
    assert u[3..] == rest;
    assert 16 * (b / 16) + b % 16 == b;
  }

  lemma PrependTwice(b: seq<nat>, bs: seq<nat>, rest: Option<seq<nat>>)
    ensures Prepend(b, Prepend(bs, rest)) == Prepend(b + bs, rest)
  {
    if rest.Some? {
      assert b + (bs + rest.value) == (b + bs) + rest.value;
    }
  }

  lemma {:induction false} DecodeEncodedBytes(bs: seq<nat>, t: string)
    requires forall k :: 0 <= k < |bs| ==> bs[k] < 256
    ensures PercentDecode(EncodeBytes(bs) + t) == Prepend(bs, PercentDecode(t))
    decreases |bs|
  {
    if bs == [] {
      assert EncodeBytes(bs) + t == t;
      if PercentDecode(t).Some? {
        assert bs + PercentDecode(t).value == PercentDecode(t).value;
      }
    } else {
      var escape := ['%', HexDigit(bs[0] / 16), HexDigit(bs[0] % 16)];
      var tail := EncodeBytes(bs[1..]) + t;
      assert EncodeBytes(bs) + t == escape + tail;
      DecodeEscape(bs[0], tail);
      DecodeEncodedBytes(bs[1..], t);
      PrependTwice([bs[0]], bs[1..], PercentDecode(t));
      assert [bs[0]] + bs[1..] == bs;
    }
  }

  /** Decoding undoes `encodeURIComponent`: it gives back the UTF-8 bytes of the original text. */
  lemma {:induction false} DecodeEncode(s: string)
    ensures PercentDecode(EncodeURIComponent(s)) == Some(Utf8String(s))
    decreases |s|
  {
    if s != [] {
      var rest := EncodeURIComponent(s[1..]);
      DecodeEncode(s[1..]);
      if Unreserved(s[0]) {
        var u := [s[0]] + rest;
        assert u[1..] == rest;
      } else {
        DecodeEncodedBytes(Utf8(s[0]), rest);
      }
    }
  }

  // ----- Reading a query string -----

  /** One `key=value` piece: the key is the text before the first `=`, the value the text after it
      (empty when there is no `=`). */
  function KeyOf(piece: string): string
  {
    match IndexOf(piece, "=")
    case Some(i) => piece[..i]
    case None => piece
  }

  function ValueOf(piece: string): string
  {
    match IndexOf(piece, "=")
    case Some(i) => piece[i + 1..]
    case None => []
  }

  function HasKey(key: string): string -> bool
  {
    (piece: string) => KeyOf(piece) == key
  }

  function FirstWithKey(pieces: seq<string>, key: string): (r: Option<string>)
    ensures r.Some? ==> exists i :: Collections.FirstAt(pieces, HasKey(key), i) && ValueOf(pieces[i]) == r.value
    ensures r.None? <==> forall k :: 0 <= k < |pieces| ==> KeyOf(pieces[k]) != key
  {
    if pieces == [] then None
    else if KeyOf(pieces[0]) == key then
      assert Collections.FirstAt(pieces, HasKey(key), 0);
      Some(ValueOf(pieces[0]))
    else
      var r := FirstWithKey(pieces[1..], key);
      assert forall k :: 1 <= k < |pieces| ==> pieces[k] == pieces[1..][k - 1];
      FirstWithKeyShift(pieces, key, r);
      r
  }

  /** The first piece of the tail with the key is the first of the whole when the head lacks it. */
  lemma FirstWithKeyShift(pieces: seq<string>, key: string, r: Option<string>)
    requires pieces != [] && !HasKey(key)(pieces[0])
    requires r.Some? ==> exists i :: Collections.FirstAt(pieces[1..], HasKey(key), i) && ValueOf(pieces[1..][i]) == r.value
    ensures r.Some? ==> exists i :: Collections.FirstAt(pieces, HasKey(key), i) && ValueOf(pieces[i]) == r.value
  {
    if r.Some? {
      var i :| Collections.FirstAt(pieces[1..], HasKey(key), i) && ValueOf(pieces[1..][i]) == r.value;
      Collections.FirstAtShift(pieces, HasKey(key), i);
    }
  }

  /** The raw value the server reads for `key` from a query string: pieces split on `&`, the first
      piece with that key wins. */
  function QueryValue(query: string, key: string): Option<string>
  {
    FirstWithKey(Split(query, '&'), key)
  }

  /** A piece `k=v` whose key has no `=` reads as key `k` and value `v`. */
  lemma KeyValuePiece(k: string, v: string)
    requires k != [] && '=' !in k
    ensures KeyOf(k + "=" + v) == k && ValueOf(k + "=" + v) == v
  {
    var p := k + "=" + v;
    assert OccursAt(p, "=", |k|) by {
      assert p[|k|..|k| + 1] == "=";
    }
    forall j: nat | j < |k| ensures !OccursAt(p, "=", j) {
      assert p[j..j + 1][0] == p[j] == k[j];
    }
    assert p[..|k|] == k;
    assert p[|k| + 1..] == v;
  }

  /** `key` is not the key of any piece of `rest`. */
  predicate KeyAbsentFrom(rest: string, key: string)
  {
    forall p :: p in Split(rest, '&') ==> KeyOf(p) != key
  }

  /** `&y` repeats no key of `y`, and its empty leading piece has no key. */
  lemma LaterKeyAbsent(k: string, y: string)
    requires k != []
    requires KeyAbsentFrom(y, k)
    ensures KeyAbsentFrom("&" + y, k)
  {
    var rest := "&" + y;
    assert rest[0] == '&' && rest[1..] == y;
    assert Split(rest, '&') == [[]] + Split(y, '&');
    assert IndexOf([], "=").None?;
  }

  /** In `k=v&rest`, with no `&` in `v` and the key not repeated in `rest`, the server reads `v`
      for `k`. */
  lemma LeadingParameter(k: string, v: string, rest: string)
    requires k != [] && '=' !in k && '&' !in k && '&' !in v
    requires rest == [] || rest[0] == '&'
    requires KeyAbsentFrom(rest, k)
    ensures QueryValue(k + "=" + v + rest, k) == Some(v)
  {
    var piece := k + "=" + v;
    KeyValuePiece(k, v);
    assert '&' !in piece;
    SplitPrefix(piece, rest, '&');
    if rest == [] {
      assert Split(rest, '&')[0] == [];
    } else if rest[0] == '&' {
      assert Split(rest, '&') == [[]] + Split(rest[1..], '&');
    }
    assert piece + Split(rest, '&')[0] == piece;
  }

  /** A query string that is the single parameter `k=v`. */
  lemma OnlyParameter(k: string, v: string)
    requires k != [] && '=' !in k && '&' !in k && '&' !in v
    ensures QueryValue(k + "=" + v, k) == Some(v)
  {
    assert k + "=" + v + [] == k + "=" + v;
    assert Split([], '&') == [[]];
    assert IndexOf([], "=").None?;
    LeadingParameter(k, v, []);
  }

  /** A piece whose key differs from `key` is passed over. */
  lemma OtherKeyAbsent(k: string, v: string, key: string)
    requires k != [] && '=' !in k && '&' !in k && '&' !in v && key != k
    ensures QueryValue(k + "=" + v, key) == None
  {
    var piece := k + "=" + v;
    KeyValuePiece(k, v);
    assert '&' !in piece;
    SplitJoin([piece], '&');
  }

  /** An empty query string holds no parameter with a non-empty key. */
  lemma EmptyQueryAbsent(key: string)
    requires key != []
    ensures QueryValue([], key) == None
  {
    assert Split([], '&') == [[]];
    assert IndexOf([], "=").None?;
  }

  /** Two `&`-free pieces joined by `&` split back into those two pieces. */
  lemma SplitTwo(p1: string, p2: string)
    requires '&' !in p1 && '&' !in p2
    ensures Split(p1 + "&" + p2, '&') == [p1, p2]
  {
    assert Join([p1, p2], '&') == p1 + "&" + p2 by {
      assert [p1, p2][1..] == [p2];
    }
    SplitJoin([p1, p2], '&');
  }

  /** In `k1=v1&k2=v2` with distinct keys, the server reads each value under its own key. */
  lemma TwoParameters(k1: string, v1: string, k2: string, v2: string)
    requires k1 != [] && '=' !in k1 && '&' !in k1 && '&' !in v1
    requires k2 != [] && '=' !in k2 && '&' !in k2 && '&' !in v2
    requires k1 != k2
    ensures QueryValue((k1 + "=" + v1) + "&" + (k2 + "=" + v2), k1) == Some(v1)
    ensures QueryValue((k1 + "=" + v1) + "&" + (k2 + "=" + v2), k2) == Some(v2)
  {
    var p1, p2 := k1 + "=" + v1, k2 + "=" + v2;
    KeyValuePiece(k1, v1);
    KeyValuePiece(k2, v2);
    SplitTwo(p1, p2);
    assert QueryValue(p1 + "&" + p2, k1) == FirstWithKey([p1, p2], k1) == Some(v1);
    assert [p1, p2][1..] == [p2];
    assert FirstWithKey([p1, p2], k2) == FirstWithKey([p2], k2);
    assert QueryValue(p1 + "&" + p2, k2) == FirstWithKey([p2], k2) == Some(v2);
  }
}
