/** JSON values without escapes (RFC 8259 section 3), with whitespace wherever the grammar
    allows it, and the scanner's skipping of them. As in the scanner, strings may hold raw control
    bytes, and any run of other bytes counts as a literal; WireStrict has RFC 8259 to the letter. */
module WireGrammar {
  import opened Wrappers
  import opened WireScan

  /** A value together with its layout. Literal covers numbers, true, false and null. */
  datatype Json =
    | Literal(text: string)
    | Str(chars: string)
    | Arr(blank: string, elems: seq<Elem>)
    | Obj(blank: string, members: seq<Member>)

  datatype Elem = Elem(before: string, value: Json, after: string)

  datatype Member = Member(before: string, key: string, afterKey: string, beforeValue: string,
                           value: Json, after: string)

  predicate Blank(s: string) { forall k :: 0 <= k < |s| ==> IsWs(s[k]) }

  /** A string body with nothing to escape. */
  predicate PlainText(s: string) { forall k :: 0 <= k < |s| ==> s[k] != '\"' && s[k] != '\\' }

  predicate LiteralText(s: string) {
    |s| > 0 && forall k :: 0 <= k < |s| ==>
      !IsDelimiter(s[k]) && s[k] != '\"' && s[k] != '[' && s[k] != '{'
  }

  predicate WellFormed(v: Json) {
    match v
    case Literal(t) => LiteralText(t)
    case Str(s) => PlainText(s)
    case Arr(b, es) => Blank(b) && forall e :: e in es ==> Blank(e.before) && WellFormed(e.value) && Blank(e.after)
    case Obj(b, ms) =>
      Blank(b) && forall m :: m in ms ==>
        Blank(m.before) && PlainText(m.key) && Blank(m.afterKey) && Blank(m.beforeValue) && WellFormed(m.value) && Blank(m.after)
  }

  function Quoted(s: string): string { "\"" + s + "\"" }

  function Text(v: Json): string
    decreases v, 0
  {
    match v
    case Literal(t) => t
    case Str(s) => Quoted(s)
    case Arr(b, es) => if es == [] then "[" + b + "]" else "[" + ElemsText(es) + "]"
    case Obj(b, ms) => if ms == [] then "{" + b + "}" else "{" + MembersText(ms) + "}"
  }

  function ElemsText(es: seq<Elem>): string
    decreases es, 1
  {
    if es == [] then ""
    else
      var e := es[0];
      e.before + Text(e.value) + e.after + (if |es| == 1 then "" else "," + ElemsText(es[1..]))
  }

  function MembersText(ms: seq<Member>): string
    decreases ms, 1
  {
    if ms == [] then ""
    else
      var m := ms[0];
      m.before + Quoted(m.key) + m.afterKey + ":" + m.beforeValue + Text(m.value) + m.after
      + (if |ms| == 1 then "" else "," + MembersText(ms[1..]))
  }

  // ----- the scanner on concatenated buffers -------------------------------------

  lemma {:induction false} StringRestPlain(pre: string, s: string, suf: string, start: nat, k: nat)
    requires PlainText(s) && k <= |s| && start == |pre| + 1
    ensures StringRest(pre + Quoted(s) + suf, start, start + k) == Parsed(s, |pre| + |s| + 2)
    decreases |s| - k
  {
    var buf := pre + Quoted(s) + suf;
    if k == |s| {
      assert buf[start + k] == '\"';
      assert buf[start..start + k] == s;
    } else {
      assert buf[start + k] == s[k];
      StringRestPlain(pre, s, suf, start, k + 1);
    }
  }

  lemma ScanStringPlain(pre: string, s: string, suf: string)
    requires PlainText(s)
    ensures ScanString(pre + Quoted(s) + suf, |pre|) == Parsed(s, |pre| + |Quoted(s)|)
  {
    assert (pre + Quoted(s) + suf)[|pre|] == '\"';
    StringRestPlain(pre, s, suf, |pre| + 1, 0);
  }

  lemma {:induction false} SkipWsBlank(pre: string, w: string, suf: string)
    requires Blank(w)
    ensures SkipWs(pre + w + suf, |pre|) == SkipWs(pre + w + suf, |pre| + |w|)
    decreases |w|
  {
    if w != "" {
      assert (pre + w + suf)[|pre|] == w[0];
      assert pre + w + suf == (pre + w[..1]) + w[1..] + suf;
      SkipWsBlank(pre + w[..1], w[1..], suf);
    }
  }

  // ----- texts a container scan passes over ------------------------------------------

  /** Scanning a container from the start of t or from its end is the same, at every
      depth and for either bracket kind. */
  ghost predicate Passed(pre: string, t: string, suf: string, open: char, close: char, depth: nat) {
    SkipContainer(pre + t + suf, |pre|, open, close, depth)
    == SkipContainer(pre + t + suf, |pre| + |t|, open, close, depth)
  }

  ghost predicate Kind(open: char, close: char) {
    (open == '{' && close == '}') || (open == '[' && close == ']')
  }

  ghost predicate Passes(t: string) {
    forall pre, suf, open, close, depth: nat :: Kind(open, close) && depth > 0 ==>
      Passed(pre, t, suf, open, close, depth)
  }

  lemma PassesConcat(a: string, b: string)
    requires Passes(a) && Passes(b)
    ensures Passes(a + b)
  {
    forall pre, suf, open, close, depth: nat | Kind(open, close) && depth > 0
      ensures Passed(pre, a + b, suf, open, close, depth)
    {
      assert Passed(pre, a, b + suf, open, close, depth);
      assert Passed(pre + a, b, suf, open, close, depth);
      hide Passed;
      PassedConcat(pre, a, b, suf, open, close, depth);
    }
  }

  lemma PassedConcat(pre: string, a: string, b: string, suf: string, open: char, close: char, depth: nat)
    requires Passed(pre, a, b + suf, open, close, depth) && Passed(pre + a, b, suf, open, close, depth)
    ensures Passed(pre, a + b, suf, open, close, depth)
  {
    hide SkipContainer;
    assert pre + (a + b) + suf == pre + a + (b + suf) == (pre + a) + b + suf;
  }

  lemma PassesNothing()
    ensures Passes("")
  {}

  lemma PassesChar(c: char)
    requires c !in "\"[]{}"
    ensures Passes([c])
  {
    forall pre, suf, open, close, depth: nat | Kind(open, close) && depth > 0
      ensures Passed(pre, [c], suf, open, close, depth)
    {
      assert (pre + [c] + suf)[|pre|] == c;
    }
  }

  lemma {:induction false} PassesNeutral(t: string)
    requires forall k :: 0 <= k < |t| ==> t[k] !in "\"[]{}"
    ensures Passes(t)
    decreases |t|
  {
    if t == "" {
      PassesNothing();
    } else {
      PassesChar(t[0]);
      PassesNeutral(t[1..]);
      PassesConcat([t[0]], t[1..]);
      assert [t[0]] + t[1..] == t;
    }
  }

  lemma PassesQuoted(s: string)
    requires PlainText(s)
    ensures Passes(Quoted(s))
  {
    forall pre, suf, open, close, depth: nat | Kind(open, close) && depth > 0
      ensures Passed(pre, Quoted(s), suf, open, close, depth)
    {
      assert (pre + Quoted(s) + suf)[|pre|] == '\"';
      ScanStringPlain(pre, s, suf);
    }
  }

  /** A bracketed text passes when its inside does: at its own kind the depth goes up and
      down again, at the other kind both brackets are just bytes. */
  lemma PassesBracketed(o: char, inner: string, c: char)
    requires Kind(o, c) && Passes(inner)
    ensures Passes([o] + inner + [c])
  {
    forall pre, suf, open, close, depth: nat | Kind(open, close) && depth > 0
      ensures Passed(pre, [o] + inner + [c], suf, open, close, depth)
    {
      assert Passed(pre + [o], inner, [c] + suf, open, close, if open == o then depth + 1 else depth);
      hide Passed, Passes;
      PassedBracketed(pre, o, inner, c, suf, open, close, depth);
    }
  }

  lemma PassedBracketed(pre: string, o: char, inner: string, c: char, suf: string, open: char, close: char, depth: nat)
    requires Kind(o, c) && Kind(open, close) && depth > 0
    requires Passed(pre + [o], inner, [c] + suf, open, close, if open == o then depth + 1 else depth)
    ensures Passed(pre, [o] + inner + [c], suf, open, close, depth)
  {
    var t := [o] + inner + [c];
    var buf := pre + t + suf;
    assert buf == (pre + [o]) + inner + ([c] + suf);
    assert buf[|pre|] == o && buf[|pre| + 1 + |inner|] == c;
    assert SkipWs(buf, |pre|) == |pre|;
    assert SkipWs(buf, |pre| + 1 + |inner|) == |pre| + 1 + |inner|;
  }

  lemma {:induction false} PassesValue(v: Json)
    requires WellFormed(v)
    ensures Passes(Text(v))
    decreases v, 0
  {
    match v
    case Literal(t) => PassesNeutral(t);
    case Str(s) => PassesQuoted(s);
    case Arr(b, es) =>
      if es == [] {
        PassesNeutral(b);
        PassesBracketed('[', b, ']');
      } else {
        PassesElems(es);
        PassesBracketed('[', ElemsText(es), ']');
      }
    case Obj(b, ms) =>
      if ms == [] {
        PassesNeutral(b);
        PassesBracketed('{', b, '}');
      } else {
        PassesMembers(ms);
        PassesBracketed('{', MembersText(ms), '}');
      }
  }

  lemma {:induction false} PassesElems(es: seq<Elem>)
    requires forall e :: e in es ==> Blank(e.before) && WellFormed(e.value) && Blank(e.after)
    ensures Passes(ElemsText(es))
    decreases es, 1
  {
    if es == [] {
      PassesNothing();
    } else {
      var e := es[0];
      var rest := if |es| == 1 then "" else "," + ElemsText(es[1..]);
      PassesNeutral(e.before);
      PassesValue(e.value);
      PassesNeutral(e.after);
      if |es| == 1 {
        PassesNothing();
      } else {
        PassesElems(es[1..]);
        PassesNeutral(",");
        PassesConcat(",", ElemsText(es[1..]));
      }
      PassesConcat(e.before, Text(e.value));
      PassesConcat(e.before + Text(e.value), e.after);
      PassesConcat(e.before + Text(e.value) + e.after, rest);
    }
  }

  lemma {:induction false} PassesMembers(ms: seq<Member>)
    requires forall m :: m in ms ==>
      Blank(m.before) && PlainText(m.key) && Blank(m.afterKey) && Blank(m.beforeValue) && WellFormed(m.value) && Blank(m.after)
    ensures Passes(MembersText(ms))
    decreases ms, 1
  {
    if ms == [] {
      PassesNothing();
    } else {
      var m := ms[0];
      var rest := if |ms| == 1 then "" else "," + MembersText(ms[1..]);
      PassesNeutral(m.before);
      PassesQuoted(m.key);
      PassesNeutral(m.afterKey);
      PassesNeutral(":");
      PassesNeutral(m.beforeValue);
      PassesValue(m.value);
      PassesNeutral(m.after);
      if |ms| == 1 {
        PassesNothing();
      } else {
        PassesMembers(ms[1..]);
        PassesNeutral(",");
        PassesConcat(",", MembersText(ms[1..]));
      }
      PassesConcat(m.before, Quoted(m.key));
      PassesConcat(m.before + Quoted(m.key), m.afterKey);
      PassesConcat(m.before + Quoted(m.key) + m.afterKey, ":");
      PassesConcat(m.before + Quoted(m.key) + m.afterKey + ":", m.beforeValue);
      PassesConcat(m.before + Quoted(m.key) + m.afterKey + ":" + m.beforeValue, Text(m.value));
      PassesConcat(m.before + Quoted(m.key) + m.afterKey + ":" + m.beforeValue + Text(m.value), m.after);
      PassesConcat(m.before + Quoted(m.key) + m.afterKey + ":" + m.beforeValue + Text(m.value) + m.after, rest);
    }
  }

  // ----- skipping one value ---------------------------------------------------------------

  /** What follows a value: nothing, or a byte that ends a bare literal. */
  predicate Ends(suf: string) { suf == "" || IsDelimiter(suf[0]) }

  lemma {:induction false} LiteralEndExact(pre: string, t: string, suf: string, k: nat)
    requires LiteralText(t) && Ends(suf) && k <= |t|
    ensures LiteralEnd(pre + t + suf, |pre| + k) == |pre| + |t|
    decreases |t| - k
  {
    var buf := pre + t + suf;
    if k < |t| {
      assert buf[|pre| + k] == t[k];
      LiteralEndExact(pre, t, suf, k + 1);
    } else if suf != "" {
      assert buf[|pre| + k] == suf[0];
    }
  }

  /** The scan of a container body stops right behind the matching bracket. */
  lemma ContainerExact(pre: string, o: char, inner: string, c: char, suf: string)
    requires Kind(o, c) && Passes(inner)
    ensures SkipContainer(pre + ([o] + inner + [c]) + suf, |pre| + 1, o, c, 1) == Parsed((), |pre| + |inner| + 2)
  {
    var buf := pre + ([o] + inner + [c]) + suf;
    assert buf == (pre + [o]) + inner + ([c] + suf);
    assert Passed(pre + [o], inner, [c] + suf, o, c, 1);
    var q := |pre| + 1 + |inner|;
    assert buf[q] == c;
    assert SkipWs(buf, q) == q;
    assert SkipContainer(buf, q + 1, o, c, 0) == Parsed((), q + 1);
  }

  lemma ContainerBody(v: Json) returns (inner: string)
    requires WellFormed(v) && (v.Arr? || v.Obj?)
    ensures Text(v) == (if v.Arr? then "[" else "{") + inner + (if v.Arr? then "]" else "}")
    ensures Passes(inner)
  {
    match v {
      case Arr(b, es) =>
        if es == [] {
          PassesNeutral(b);
          inner := b;
        } else {
          PassesElems(es);
          inner := ElemsText(es);
        }
      case Obj(b, ms) =>
        if ms == [] {
          PassesNeutral(b);
          inner := b;
        } else {
          PassesMembers(ms);
          inner := MembersText(ms);
        }
    }
  }

  lemma SkipHere(pre: string, v: Json, suf: string)
    requires WellFormed(v)
    requires v.Literal? ==> Ends(suf)
    ensures SkipValue(pre + Text(v) + suf, |pre|) == Parsed((), |pre| + |Text(v)|)
  {
    var buf := pre + Text(v) + suf;
    match v {
      case Literal(t) =>
        assert buf[|pre|] == t[0];
        LiteralEndExact(pre, t, suf, 0);
      case Str(s) =>
        assert buf[|pre|] == '\"';
        ScanStringPlain(pre, s, suf);
      case Arr(_, _) =>
        var inner := ContainerBody(v);
        ContainerExact(pre, '[', inner, ']', suf);
        assert Text(v) == ['['] + inner + [']'];
        assert buf[|pre|] == '[';
      case Obj(_, _) =>
        var inner := ContainerBody(v);
        ContainerExact(pre, '{', inner, '}', suf);
        assert Text(v) == ['{'] + inner + ['}'];
        assert buf[|pre|] == '{';
    }
  }

  /** Main result: skipping consumes exactly one value, at any nesting depth, although
      inside a container only that container's own bracket kind is counted. */
  lemma SkipValueExact(pre: string, w: string, v: Json, suf: string)
    requires Blank(w) && WellFormed(v)
    requires v.Literal? ==> Ends(suf)
    ensures SkipValue(pre + w + Text(v) + suf, |pre|) == Parsed((), |pre| + |w| + |Text(v)|)
  {
    hide SkipWs, SkipValue, Text, Blank, WellFormed, Ends;
    var t := Text(v);
    Cut(pre, w, t, suf);
    SkipWsBlank(pre, w, t + suf);
    SkipHere(pre + w, v, suf);
    SkipFromBlank(pre + w + t + suf, |pre|, |pre| + |w|);
  }

  lemma Cut(pre: string, w: string, t: string, suf: string)
    ensures pre + w + t + suf == pre + w + (t + suf)
  {}

  lemma SkipFromBlank(buf: string, p: nat, q: nat)
    requires SkipWs(buf, p) == SkipWs(buf, q)
    ensures SkipValue(buf, p) == SkipValue(buf, q)
  {
    hide SkipContainer, ScanString, LiteralEnd;
  }
}
