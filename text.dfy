/**
 * The parts of Go's `strings` and `unicode` packages the chat client relies on:
 * `strings.TrimSpace` (with `unicode.IsSpace`) and the `[]byte(s)` conversion,
 * which yields the UTF-8 encoding of a string.
 */
module Text {

  type Byte = b: int | 0 <= b < 0x100

  type Bytes = seq<Byte>

  /** Go's `unicode.IsSpace`: the Unicode White_Space property. */
  predicate IsSpace(c: char)
  {
    var n := c as int;
    (0x09 <= n <= 0x0D) || n == 0x20 || n == 0x85 || n == 0xA0 || n == 0x1680 ||
    (0x2000 <= n <= 0x200A) || n == 0x2028 || n == 0x2029 || n == 0x202F ||
    n == 0x205F || n == 0x3000
  }

  /** Every character of `s` is white space. */
  predicate AllSpace(s: string)
  {
    forall i :: 0 <= i < |s| ==> IsSpace(s[i])
  }

  /** Drops the leading white space of `s`; what remains is a suffix of `s`. */
  function TrimLeft(s: string): (r: string)
    ensures |r| <= |s| && r == s[|s| - |r|..]
    ensures r == [] || !IsSpace(r[0])
    ensures AllSpace(s[..|s| - |r|])
  {
    if s != [] && IsSpace(s[0]) then
      var tail := s[1..];
      var r := TrimLeft(tail);
      assert r == s[|s| - |r|..] by {
        assert tail[|tail| - |r|..] == s[|s| - |r|..];
      }
      assert AllSpace(s[..|s| - |r|]) by {
        forall k | 0 <= k < |s| - |r| ensures IsSpace(s[k]) {
          if k > 0 {
            assert s[k] == tail[..|tail| - |r|][k - 1];
          }
        }
      }
      r
    else s
  }

  /** Drops the trailing white space of `s`; what remains is a prefix of `s`. */
  function TrimRight(s: string): (r: string)
    ensures |r| <= |s| && r == s[..|r|]
    ensures r == [] || !IsSpace(r[|r| - 1])
    ensures AllSpace(s[|r|..])
  {
    if s != [] && IsSpace(s[|s| - 1]) then
      var init := s[..|s| - 1];
      var r := TrimRight(init);
      assert r == s[..|r|] by {
        assert init[..|r|] == s[..|r|];
      }
      assert AllSpace(s[|r|..]) by {
        forall k | |r| <= k < |s| ensures IsSpace(s[k]) {
          if k < |s| - 1 {
            assert s[k] == init[|r|..][k - |r|];
          }
        }
      }
      r
    else s
  }

  /**
   * Go's `strings.TrimSpace`: the longest infix of `s` that neither starts
   * nor ends with white space, obtained by removing only white space.
   */
  function TrimSpace(s: string): (r: string)
    ensures r == [] || (!IsSpace(r[0]) && !IsSpace(r[|r| - 1]))
    ensures r == [] <==> AllSpace(s)
  {
    var left := TrimLeft(s);
    var r := TrimRight(left);
    assert left != [] ==> !AllSpace(s) by {
      if left != [] {
        assert s[|s| - |left|] == left[0];
      }
    }
    assert r == [] ==> AllSpace(s) by {
      if r == [] {
        assert left[|r|..] == left;
        assert left == [];
        assert s[..|s|] == s;
      }
    }
    r
  }

  /** The characters removed by TrimSpace are white space, the rest is kept in order. */
  lemma TrimSpaceInfix(s: string)
    ensures var i := |s| - |TrimLeft(s)|;
      i + |TrimSpace(s)| <= |s| && TrimSpace(s) == s[i..i + |TrimSpace(s)|]
  {
  }

  /** Trimming twice is the same as trimming once. */
  lemma TrimSpaceIdempotent(s: string)
    ensures TrimSpace(TrimSpace(s)) == TrimSpace(s)
  {
    var r := TrimSpace(s);
    TrimOfUnpadded(r);
  }

  /** TrimSpaceOfPadded with no padding: an unpadded string is left unchanged. */
  lemma TrimOfUnpadded(s: string)
    requires s == [] || (!IsSpace(s[0]) && !IsSpace(s[|s| - 1]))
    ensures TrimSpace(s) == s
  {
    assert "" + s + "" == s;
    TrimSpaceOfPadded("", s, "");
  }

  /** TrimSpaceOfPadded with a newline after the body: a line read with its '\n' trims back to its body. */
  lemma TrimNewlineTerminated(body: string)
    requires body == [] || (!IsSpace(body[0]) && !IsSpace(body[|body| - 1]))
    ensures TrimSpace(body + "\n") == body
  {
    assert "" + body + "\n" == body + "\n";
    TrimSpaceOfPadded("", body, "\n");
  }

  /** Leading white space in front of a string that starts with a non-space is dropped exactly. */
  lemma {:induction false} TrimLeftPadded(a: string, x: string)
    requires AllSpace(a)
    requires x == [] || !IsSpace(x[0])
    ensures TrimLeft(a + x) == x
    decreases |a|
  {
    if a == [] {
      assert a + x == x;
    } else {
      assert (a + x)[1..] == a[1..] + x;
      TrimLeftPadded(a[1..], x);
    }
  }

  /** Trailing white space after a string that ends with a non-space is dropped exactly. */
  lemma {:induction false} TrimRightPadded(x: string, b: string)
    requires AllSpace(b)
    requires x == [] || !IsSpace(x[|x| - 1])
    ensures TrimRight(x + b) == x
    decreases |b|
  {
    if b == [] {
      assert x + b == x;
    } else {
      var b' := b[..|b| - 1];
      assert (x + b)[..|x + b| - 1] == x + b';
      TrimRightPadded(x, b');
    }
  }

  /**
   * TrimSpace recovers the text from any amount of surrounding white space:
   * with `core` neither starting nor ending with white space, trimming
   * `a + core + b` yields `core` whenever `a` and `b` are white space.
   */
  lemma TrimSpaceOfPadded(a: string, core: string, b: string)
    requires AllSpace(a) && AllSpace(b)
    requires core == [] || (!IsSpace(core[0]) && !IsSpace(core[|core| - 1]))
    ensures TrimSpace(a + core + b) == core
  {
    var s := a + core + b;
    if core == [] {
      assert AllSpace(s) by {
        assert s == a + b;
        forall i | 0 <= i < |s| ensures IsSpace(s[i]) {
          if i < |a| {
            assert s[i] == a[i];
          } else {
            assert s[i] == b[i - |a|];
          }
        }
      }
    } else {
      assert s == a + (core + b);
      TrimLeftPadded(a, core + b);
      TrimRightPadded(core, b);
    }
  }

  /** The UTF-8 encoding of one Unicode scalar value (RFC 3629 section 3). */
  function EncodeRune(c: char): (b: Bytes)
    ensures 1 <= |b| <= 4
    ensures |b| == 1 <==> c as int < 0x80
  {
    var n := c as int;
    if n < 0x80 then [n]
    else if n < 0x800 then [0xC0 + n / 0x40, 0x80 + n % 0x40]
    else if n < 0x10000 then [0xE0 + n / 0x1000, 0x80 + (n / 0x40) % 0x40, 0x80 + n % 0x40]
    else [0xF0 + n / 0x40000, 0x80 + (n / 0x1000) % 0x40, 0x80 + (n / 0x40) % 0x40, 0x80 + n % 0x40]
  }

  /** Go's `[]byte(s)`: the UTF-8 encoding of `s`, one to four bytes per character. */
  function Utf8(s: string): (b: Bytes)
    ensures |s| <= |b| <= 4 * |s|
  {
    if s == [] then [] else EncodeRune(s[0]) + Utf8(s[1..])
  }

  /** Encoding distributes over concatenation. */
  lemma {:induction false} Utf8Append(s: string, t: string)
    ensures Utf8(s + t) == Utf8(s) + Utf8(t)
  {
    if s == [] {
      assert s + t == t;
    } else {
      assert (s + t)[1..] == s[1..] + t;
      Utf8Append(s[1..], t);
    }
  }
}
