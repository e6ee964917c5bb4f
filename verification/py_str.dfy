/** The two Python string operations the extractor relies on: `str.strip()`
    (with `str.isspace()` as its notion of whitespace) and `' '.join(...)`. */
module PyStr {

  /** `c.isspace()` in Python 3: true for the characters that Unicode classes as whitespace. */
  predicate IsSpace(c: char) {
    var n := c as int;
    || n == 0x20
    || 0x09 <= n <= 0x0D
    || 0x1C <= n <= 0x1F
    || n == 0x85
    || n == 0xA0
    || n == 0x1680
    || 0x2000 <= n <= 0x200A
    || n == 0x2028
    || n == 0x2029
    || n == 0x202F
    || n == 0x205F
    || n == 0x3000
  }

  predicate AllSpace(s: string) {
    forall i :: 0 <= i < |s| ==> IsSpace(s[i])
  }

  /** Neither end of `s` is whitespace: what `strip()` leaves behind. */
  predicate IsStripped(s: string) {
    s == [] || (!IsSpace(s[0]) && !IsSpace(s[|s| - 1]))
  }

  /** `s.lstrip()`: `s` without its leading whitespace. */
  function TrimLeft(s: string): (r: string)
  {
    if s != [] && IsSpace(s[0]) then TrimLeft(s[1..]) else s
  }

  /** `s.rstrip()`: `s` without its trailing whitespace. */
  function TrimRight(s: string): (r: string)
  {
    if s != [] && IsSpace(s[|s| - 1]) then TrimRight(s[..|s| - 1]) else s
  }

  /** `lstrip()` removes a run of whitespace from the front, and no more. */
  lemma {:induction false} TrimLeftShape(s: string)
    ensures |TrimLeft(s)| <= |s| && TrimLeft(s) == s[|s| - |TrimLeft(s)|..]
    ensures AllSpace(s[..|s| - |TrimLeft(s)|])
    ensures TrimLeft(s) == [] || !IsSpace(TrimLeft(s)[0])
  {
    if s != [] && IsSpace(s[0]) {
      TrimLeftShape(s[1..]);
      var r := TrimLeft(s[1..]);
      assert s[..|s| - |r|] == [s[0]] + s[1..][..|s| - 1 - |r|];
    }
  }

  /** `rstrip()` removes a run of whitespace from the back, and no more. */
  lemma {:induction false} TrimRightShape(s: string)
    ensures |TrimRight(s)| <= |s| && TrimRight(s) == s[..|TrimRight(s)|]
    ensures AllSpace(s[|TrimRight(s)|..])
    ensures TrimRight(s) == [] || !IsSpace(TrimRight(s)[|TrimRight(s)| - 1])
  {
    if s != [] && IsSpace(s[|s| - 1]) {
      TrimRightShape(s[..|s| - 1]);
      var r := TrimRight(s[..|s| - 1]);
      assert s[|r|..] == s[..|s| - 1][|r|..] + [s[|s| - 1]];
    }
  }

  /** `s.strip()`: `s` without leading and trailing whitespace. */
  function Strip(s: string): (r: string)
    ensures IsStripped(r)
  {
    TrimLeftShape(s);
    TrimRightShape(TrimLeft(s));
    TrimRight(TrimLeft(s))
  }

  /** `sep.join(parts)`. */
  function Join(parts: seq<string>, sep: string): (r: string)
  {
    if parts == [] then ""
    else if |parts| == 1 then parts[0]
    else parts[0] + sep + Join(parts[1..], sep)
  }

  /** Every part is what `stripped_strings` yields: non-empty, no outer whitespace. */
  predicate AllStrippedNonEmpty(parts: seq<string>) {
    forall i :: 0 <= i < |parts| ==> parts[i] != [] && IsStripped(parts[i])
  }

  lemma {:induction false} TrimLeftOfPadded(a: string, m: string)
    requires AllSpace(a)
    requires m == [] || !IsSpace(m[0])
    ensures TrimLeft(a + m) == m
  {
    if a != [] {
      assert (a + m)[1..] == a[1..] + m;
      TrimLeftOfPadded(a[1..], m);
    } else {
      assert a + m == m;
    }
  }

  lemma {:induction false} TrimRightOfPadded(m: string, b: string)
    requires AllSpace(b)
    requires m == [] || !IsSpace(m[|m| - 1])
    ensures TrimRight(m + b) == m
  {
    if b != [] {
      assert (m + b)[..|m + b| - 1] == m + b[..|b| - 1];
      TrimRightOfPadded(m, b[..|b| - 1]);
    } else {
      assert m + b == m;
    }
  }

  /** `strip()` is characterised independently of how it is computed: whatever
      whitespace pads a stripped core on either side, the core is what remains. */
  lemma StripOfPadded(a: string, m: string, b: string)
    requires AllSpace(a) && AllSpace(b) && IsStripped(m) && m != []
    ensures Strip(a + m + b) == m
  {
    assert a + m + b == a + (m + b);
    TrimLeftOfPadded(a, m + b);
    TrimRightOfPadded(m, b);
  }

  /** A string of whitespace only strips to the empty string. */
  lemma StripOfAllSpace(s: string)
    requires AllSpace(s)
    ensures Strip(s) == ""
  {
    TrimLeftOfPadded(s, "");
    assert s + "" == s;
  }

  /** `strip()` changes nothing exactly on stripped strings; hence it is idempotent. */
  lemma StripFixedPoints(s: string)
    ensures Strip(s) == s <==> IsStripped(s)
    ensures Strip(Strip(s)) == Strip(s)
  {
    if IsStripped(s) && s != [] {
      assert [] + s + [] == s;
      StripOfPadded([], s, []);
    }
    var t := Strip(s);
    if t != [] {
      assert [] + t + [] == t;
      StripOfPadded([], t, []);
    }
  }

  /** Joining `stripped_strings` with single spaces yields an already stripped
      string, empty exactly when there were no fragments; so the `.strip()` that
      follows the join leaves it unchanged. */
  lemma {:induction false} JoinOfStrippedParts(parts: seq<string>)
    requires AllStrippedNonEmpty(parts)
    ensures IsStripped(Join(parts, " "))
    ensures Join(parts, " ") == "" <==> parts == []
  {
    var j := Join(parts, " ");
    if |parts| == 1 {
      assert j == parts[0];
    } else if |parts| > 1 {
      JoinOfStrippedParts(parts[1..]);
      var rest := Join(parts[1..], " ");
      assert j == parts[0] + " " + rest;
      assert parts[0] != [] && IsStripped(parts[0]);
      assert rest != [] && IsStripped(rest);
      assert j[0] == parts[0][0];
      assert j[|j| - 1] == rest[|rest| - 1];
    }
  }
}
