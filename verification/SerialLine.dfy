/** The kernel's line reader over the bridge UART. */
module SerialLine {
  import opened Wrappers

  /** The bytes of a line as they are stored: carriage returns are dropped. */
  function Stored(s: string): (r: string)
    ensures '\r' !in r && |r| <= |s|
  {
    if s == "" then "" else (if s[0] == '\r' then "" else [s[0]]) + Stored(s[1..])
  }

  lemma {:induction false} StoredConcat(a: string, b: string)
    ensures Stored(a + b) == Stored(a) + Stored(b)
  {
    if a == "" {
      assert a + b == b;
    } else {
      assert (a + b)[1..] == a[1..] + b;
      StoredConcat(a[1..], b);
      var x := if a[0] == '\r' then "" else [a[0]];
      assert x + (Stored(a[1..]) + Stored(b)) == (x + Stored(a[1..])) + Stored(b);
    }
  }

  lemma {:induction false} StoredPlain(s: string)
    requires '\r' !in s
    ensures Stored(s) == s
  {
    if s != "" {
      StoredPlain(s[1..]);
      assert s == [s[0]] + s[1..];
    }
  }

  lemma StoredNothing()
    ensures Stored("") == ""
  {}

  lemma StoredStep(rx: string, start: nat, p: nat)
    requires start <= p < |rx|
    ensures Stored(rx[start..p + 1]) == Stored(rx[start..p]) + (if rx[p] == '\r' then "" else [rx[p]])
  {
    assert rx[start..p + 1] == rx[start..p] + [rx[p]];
    StoredConcat(rx[start..p], [rx[p]]);
  }

  /** Where the line that starts at p ends. */
  function LineEnd(rx: string, p: nat): (e: nat)
    requires p <= |rx|
    ensures p <= e <= |rx| && '\n' !in rx[p..e] && (e < |rx| ==> rx[e] == '\n')
    decreases |rx| - p
  {
    if p == |rx| || rx[p] == '\n' then p
    else
      assert rx[p..LineEnd(rx, p + 1)] == [rx[p]] + rx[p + 1..LineEnd(rx, p + 1)];
      LineEnd(rx, p + 1)
  }

  /** What one call returns for a line. */
  function Framed(line: string, capacity: nat): Result<string, HyperError> {
    if |Stored(line)| <= capacity then Ok(Stored(line)) else Err(Exhausted)
  }

  /** The receive side of the UART: the bytes the host sends, and how many were taken. */
  class Uart {
    const rx: string
    var next: nat

    constructor (rx: string)
      ensures this.rx == rx && next == 0
    {
      this.rx := rx;
      next := 0;
    }

    ghost predicate Valid()
      reads this
    {
      next <= |rx|
    }

    /** Whether the reader would return instead of waiting for more bytes. */
    predicate HasLine()
      requires Valid()
      reads this
    {
      LineEnd(rx, next) < |rx|
    }

    /** Consumes exactly one line, also when the line is too long for the buffer. */
    method ReadLine(out: array<char>) returns (r: Result<nat, HyperError>)
      requires Valid() && HasLine()
      modifies this, out
      ensures Valid() && next == LineEnd(rx, old(next)) + 1
      ensures match Framed(rx[old(next)..next - 1], out.Length)
              case Ok(line) => r == Ok(|line|) && out[..|line|] == line
              case Err(e) => r == Err(e)
    {
      hide Stored;
      assert Stored(rx[next..next]) == "" by { StoredNothing(); }
      ghost var start := next;
      ghost var end := LineEnd(rx, next);
      var n := 0;
      var overflow := false;
      while true
        invariant start <= next <= end < |rx| && LineEnd(rx, next) == end && n <= out.Length
        invariant if overflow then n == out.Length < |Stored(rx[start..next])| else out[..n] == Stored(rx[start..next])
        decreases |rx| - next
      {
        var b := rx[next];
        next := next + 1;
        if b == '\n' {
          return if overflow then Err(Exhausted) else Ok(n);
        }
        StoredStep(rx, start, next - 1);
        if b == '\r' {
          continue;
        }
        if n < out.Length {
          out[n] := b;
          n := n + 1;
        } else {
          overflow := true;
        }
      }
    }
  }

  lemma {:induction false} FirstNewline(rx: string, p: nat, e: nat)
    requires p <= e < |rx| && rx[e] == '\n' && forall k :: p <= k < e ==> rx[k] != '\n'
    ensures LineEnd(rx, p) == e
    decreases e - p
  {
    if p < e { FirstNewline(rx, p + 1, e); }
  }

  /** Carriage returns anywhere in a line are dropped, so a line ended in the other style is the same
      line. */
  lemma CarriageReturnsDropped(a: string, b: string)
    requires '\r' !in a && '\r' !in b
    ensures Stored(a + "\r" + b) == a + b
  {
    StoredConcat(a + "\r", b);
    StoredConcat(a, "\r");
    StoredPlain(a);
    StoredPlain(b);
    CarriageReturnIsNothing();
    hide Stored;
    assert a + "" == a;
  }

  lemma CarriageReturnIsNothing()
    ensures Stored("\r") == ""
  {
    StoredNothing();
    assert "\r"[1..] == "";
  }

  /** A line with no line breaks inside is read whole, and the next read starts behind it,
      whatever was read before and whether it fit or not. */
  lemma LineIsRead(before: string, line: string, after: string, capacity: nat)
    requires '\n' !in line && '\r' !in line
    ensures var rx := before + line + "\n" + after;
      && LineEnd(rx, |before|) == |before + line|
      && Framed(rx[|before|..LineEnd(rx, |before|)], capacity) == if |line| <= capacity then Ok(line) else Err(Exhausted)
  {
    var rx := before + line + "\n" + after;
    var e := |before + line|;
    assert forall k :: |before| <= k < e ==> rx[k] == line[k - |before|];
    assert rx[e] == '\n';
    FirstNewline(rx, |before|, e);
    assert rx[|before|..e] == line;
    StoredPlain(line);
  }
}
