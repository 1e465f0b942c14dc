/** The kernel's single-pass JSON scanner: the scanner object with its loops, and the
    function each of its operations computes from the buffer and the position. */
module WireScan {
  import opened Wrappers

  datatype Parse<+T> = Parsed(value: T, pos: nat) | Failed

  const U32_LIMIT: nat := 0x1_0000_0000
  const U64_LIMIT: nat := 0x1_0000_0000_0000_0000

  predicate IsWs(c: char) { c == ' ' || c == '\t' || c == '\r' || c == '\n' }

  predicate IsDigit(c: char) { '0' <= c <= '9' }

  /** The bytes that end a bare literal. */
  predicate IsDelimiter(c: char) { c == ',' || c == '}' || c == ']' || IsWs(c) }

  function SkipWs(buf: string, pos: nat): (p: nat)
    ensures pos <= p && (pos <= |buf| ==> p <= |buf|)
    decreases |buf| - pos
  {
    if pos < |buf| && IsWs(buf[pos]) then SkipWs(buf, pos + 1) else pos
  }

  /** The rest of a string whose opening quote was consumed. */
  function StringRest(buf: string, start: nat, pos: nat): (r: Parse<string>)
    requires start <= pos
    ensures r.Parsed? ==> pos < r.pos <= |buf|
    decreases |buf| - pos
  {
    if pos >= |buf| then Failed
    else if buf[pos] == '\"' then Parsed(buf[start..pos], pos + 1)
    else if buf[pos] == '\\' then Failed
    else StringRest(buf, start, pos + 1)
  }

  function ScanString(buf: string, pos: nat): (r: Parse<string>)
    ensures r.Parsed? ==> pos < r.pos <= |buf|
  {
    if pos < |buf| && buf[pos] == '\"' then StringRest(buf, pos + 1, pos + 1) else Failed
  }

  function DigitsEnd(buf: string, pos: nat): (p: nat)
    requires pos <= |buf|
    ensures pos <= p <= |buf|
    ensures forall k :: pos <= k < p ==> IsDigit(buf[k])
    decreases |buf| - pos
  {
    if pos < |buf| && IsDigit(buf[pos]) then DigitsEnd(buf, pos + 1) else pos
  }

  function DigitValue(c: char): nat
    requires IsDigit(c)
  {
    c as nat - '0' as nat
  }

  function DecimalValue(digits: string): nat
    requires forall k :: 0 <= k < |digits| ==> IsDigit(digits[k])
  {
    if digits == [] then 0
    else 10 * DecimalValue(digits[..|digits| - 1]) + DigitValue(digits[|digits| - 1])
  }

  function ScanNumber(buf: string, pos: nat, limit: nat): (r: Parse<nat>)
    ensures r.Parsed? ==> pos < r.pos <= |buf| && r.value < limit
  {
    if pos >= |buf| || DigitsEnd(buf, pos) == pos then Failed
    else
      var end := DigitsEnd(buf, pos);
      if DecimalValue(buf[pos..end]) < limit then Parsed(DecimalValue(buf[pos..end]), end) else Failed
  }

  predicate NullAt(buf: string, pos: nat) {
    pos + 4 <= |buf| && buf[pos..pos + 4] == "null"
  }

  /** Inside a container of the given bracket kind, at the given depth. */
  function SkipContainer(buf: string, pos: nat, open: char, close: char, depth: nat): (r: Parse<()>)
    ensures r.Parsed? && pos <= |buf| ==> pos <= r.pos <= |buf|
    decreases |buf| - pos, depth
  {
    if depth == 0 then Parsed((), pos)
    else
      var p := SkipWs(buf, pos);
      if p >= |buf| then Failed
      else if buf[p] == '\"' then
        (match ScanString(buf, p)
         case Failed => Failed
         case Parsed(_, q) => SkipContainer(buf, q, open, close, depth))
      else if buf[p] == open then SkipContainer(buf, p + 1, open, close, depth + 1)
      else if buf[p] == close then SkipContainer(buf, p + 1, open, close, depth - 1)
      else SkipContainer(buf, p + 1, open, close, depth)
  }

  function LiteralEnd(buf: string, pos: nat): (p: nat)
    ensures pos <= p && (pos <= |buf| ==> p <= |buf|)
    decreases |buf| - pos
  {
    if pos < |buf| && !IsDelimiter(buf[pos]) then LiteralEnd(buf, pos + 1) else pos
  }

  function SkipValue(buf: string, pos: nat): (r: Parse<()>)
    ensures r.Parsed? && pos <= |buf| ==> pos <= r.pos <= |buf|
  {
    var p := SkipWs(buf, pos);
    if p >= |buf| then Failed
    else if buf[p] == '\"' then
      (match ScanString(buf, p)
       case Failed => Failed
       case Parsed(_, q) => Parsed((), q))
    else if buf[p] == '{' then SkipContainer(buf, p + 1, '{', '}', 1)
    else if buf[p] == '[' then SkipContainer(buf, p + 1, '[', ']', 1)
    else Parsed((), LiteralEnd(buf, p))
  }

  /** The outcome of an operation that leaves the scanner at p. */
  ghost predicate Did<T>(r: Result<T, HyperError>, p: nat, spec: Parse<T>) {
    match spec
    case Failed => r == Err(Invalid)
    case Parsed(v, q) => r == Ok(v) && p == q
  }

  // ----- the scanner object ---------------------------------------------------

  class Scanner {
    const buf: string
    var pos: nat

    constructor (buf: string)
      ensures this.buf == buf && pos == 0
    {
      this.buf := buf;
      this.pos := 0;
    }

    ghost predicate Valid()
      reads this
    {
      pos <= |buf|
    }

    method Peek() returns (c: Option<char>)
      ensures c == if pos < |buf| then Some(buf[pos]) else None
    {
      c := if pos < |buf| then Some(buf[pos]) else None;
    }

    method Expect(want: char) returns (r: Result<(), HyperError>)
      requires Valid()
      modifies this
      ensures Valid()
      ensures if old(pos) < |buf| && buf[old(pos)] == want then r == Ok(()) && pos == old(pos) + 1 else r == Err(Invalid)
    {
      if pos >= |buf| {
        return Err(Invalid);
      }
      var b := buf[pos];
      pos := pos + 1;
      r := if b == want then Ok(()) else Err(Invalid);
    }

    method SkipWhitespace()
      requires Valid()
      modifies this
      ensures Valid() && pos == SkipWs(buf, old(pos))
    {
      while pos < |buf| && IsWs(buf[pos])
        invariant Valid() && SkipWs(buf, old(pos)) == SkipWs(buf, pos)
        decreases |buf| - pos
      {
        pos := pos + 1;
      }
    }

    method String() returns (r: Result<string, HyperError>)
      requires Valid()
      modifies this
      ensures Valid() && Did(r, pos, ScanString(buf, old(pos)))
    {
      var q := Expect('\"');
      if q.Err? {
        return Err(q.error);
      }
      var start := pos;
      while pos < |buf|
        invariant start <= pos && Valid()
        invariant ScanString(buf, old(pos)) == StringRest(buf, start, pos)
        decreases |buf| - pos
      {
        var b := buf[pos];
        if b == '\"' {
          r := Ok(buf[start..pos]);
          pos := pos + 1;
          return;
        }
        if b == '\\' {
          return Err(Invalid);
        }
        pos := pos + 1;
      }
      r := Err(Invalid);
    }

    /** Both numeric readers: accumulate with overflow checks against the limit. */
    method Number(limit: nat) returns (r: Result<nat, HyperError>)
      requires Valid() && limit > 0
      modifies this
      ensures Valid() && Did(r, pos, ScanNumber(buf, old(pos), limit))
    {
      var start := pos;
      while pos < |buf| && IsDigit(buf[pos])
        invariant start <= pos && Valid() && DigitsEnd(buf, start) == DigitsEnd(buf, pos)
        decreases |buf| - pos
      {
        pos := pos + 1;
      }
      if start == pos {
        return Err(Invalid);
      }
      var digits := buf[start..pos];
      assert DigitsEnd(buf, start) == pos;
      forall j | 0 <= j < |digits|
        ensures IsDigit(digits[j])
      {
        assert digits[j] == buf[start + j];
      }
      var value := Evaluate(digits, limit);
      r := if value.None? then Err(Invalid) else Ok(value.value);
    }

    method TryConsumeNull() returns (yes: bool)
      requires Valid()
      modifies this
      ensures Valid() && yes == NullAt(buf, old(pos))
      ensures pos == if yes then old(pos) + 4 else old(pos)
    {
      yes := pos + 4 <= |buf| && buf[pos..pos + 4] == "null";
      if yes {
        pos := pos + 4;
      }
    }

    /** The rest of a container, behind its opening bracket. */
    method SkipBrackets(open: char, close: char) returns (r: Result<(), HyperError>)
      requires Valid()
      modifies this
      ensures Valid() && Did(r, pos, SkipContainer(buf, old(pos), open, close, 1))
    {
      hide SkipContainer, ScanString;
      var depth := 1;
      while depth > 0
        invariant Valid()
        invariant SkipContainer(buf, old(pos), open, close, 1) == SkipContainer(buf, pos, open, close, depth)
        decreases |buf| - pos, depth
      {
        SkipContainerStep(buf, pos, open, close, depth);
        SkipWhitespace();
        if pos >= |buf| {
          return Err(Invalid);
        }
        var c := buf[pos];
        if c == '\"' {
          var s := String();
          if s.Err? {
            return Err(s.error);
          }
        } else if c == open {
          depth := depth + 1;
          pos := pos + 1;
        } else if c == close {
          depth := depth - 1;
          pos := pos + 1;
        } else {
          pos := pos + 1;
        }
      }
      SkipContainerEnd(buf, pos, open, close);
      r := Ok(());
    }

    method SkipAnyValue() returns (r: Result<(), HyperError>)
      requires Valid()
      modifies this
      ensures Valid() && Did(r, pos, SkipValue(buf, old(pos)))
    {
      hide SkipContainer, ScanString, SkipWs;
      SkipWhitespace();
      if pos >= |buf| {
        return Err(Invalid);
      }
      var b := buf[pos];
      if b == '\"' {
        var s := String();
        return if s.Err? then Err(s.error) else Ok(());
      }
      if b == '{' || b == '[' {
        var close := if b == '{' then '}' else ']';
        pos := pos + 1;
        r := SkipBrackets(b, close);
        return;
      }
      while pos < |buf| && !IsDelimiter(buf[pos])
        invariant Valid() && SkipValue(buf, old(pos)) == Parsed((), LiteralEnd(buf, pos))
        decreases |buf| - pos
      {
        pos := pos + 1;
      }
      r := Ok(());
    }
  }

  /** Accumulates digit by digit, giving up at the first step that would reach the limit. */
  method Evaluate(digits: string, limit: nat) returns (value: Option<nat>)
    requires limit > 0 && forall j :: 0 <= j < |digits| ==> IsDigit(digits[j])
    ensures value == if DecimalValue(digits) < limit then Some(DecimalValue(digits)) else None
  {
    hide DecimalValue;
    NoDigits(digits);
    var acc := 0;
    for k := 0 to |digits|
      invariant acc == DecimalValue(digits[..k]) < limit
    {
      NextDigit(digits, k);
      var next := acc * 10 + DigitValue(digits[k]);
      if acc * 10 >= limit || next >= limit {
        DecimalGrows(digits, k + 1);
        return None;
      }
      acc := next;
    }
    assert digits[..|digits|] == digits;
    value := Some(acc);
  }

  lemma SkipContainerStep(buf: string, pos: nat, open: char, close: char, depth: nat)
    requires depth > 0
    ensures var p := SkipWs(buf, pos);
      SkipContainer(buf, pos, open, close, depth)
      == if p >= |buf| then Failed
         else if buf[p] == '\"' then
           (match ScanString(buf, p) case Failed => Failed case Parsed(_, q) => SkipContainer(buf, q, open, close, depth))
         else if buf[p] == open then SkipContainer(buf, p + 1, open, close, depth + 1)
         else if buf[p] == close then SkipContainer(buf, p + 1, open, close, depth - 1)
         else SkipContainer(buf, p + 1, open, close, depth)
  {
    hide ScanString, SkipWs;
  }

  lemma SkipContainerEnd(buf: string, pos: nat, open: char, close: char)
    ensures SkipContainer(buf, pos, open, close, 0) == Parsed((), pos)
  {}

  lemma NoDigits(digits: string)
    ensures digits[..0] == "" && DecimalValue("") == 0
  {}

  lemma NextDigit(digits: string, k: nat)
    requires k < |digits| && forall j :: 0 <= j < |digits| ==> IsDigit(digits[j])
    ensures DecimalValue(digits[..k + 1]) == 10 * DecimalValue(digits[..k]) + DigitValue(digits[k])
  {
    hide DigitValue;
    assert digits[..k + 1][..k] == digits[..k];
  }

  /** A longer run of digits is at least as large: overflow on the way means overflow. */
  lemma {:induction false} DecimalGrows(digits: string, k: nat)
    requires k <= |digits| && forall j :: 0 <= j < |digits| ==> IsDigit(digits[j])
    ensures DecimalValue(digits[..k]) <= DecimalValue(digits)
    decreases |digits| - k
  {
    if k == |digits| {
      assert digits[..k] == digits;
    } else {
      assert digits[..k + 1][..k] == digits[..k];
      DecimalGrows(digits, k + 1);
    }
  }
}
