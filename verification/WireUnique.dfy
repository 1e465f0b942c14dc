/** JSON text is unambiguous, blanks included: no two values in any two layouts print alike,
    whatever follows. */
module WireUnique {
  import opened WireScan
  import opened WireGrammar

  /** A string body in which every quote is escaped and every backslash starts an escape. */
  predicate Closed(s: string) {
    s == "" ||
    if s[0] == '\\' then |s| >= 2 && Closed(s[2..])
    else s[0] != '\"' && Closed(s[1..])
  }

  /** A value in any layout. The blank of a container matters only when the container is empty. */
  predicate Laid(v: Json) {
    match v
    case Literal(t) => LiteralText(t)
    case Str(s) => Closed(s)
    case Arr(b, es) => Blank(b) && (es != [] ==> b == "") && forall e :: e in es ==> LaidElem(e)
    case Obj(b, ms) => Blank(b) && (ms != [] ==> b == "") && forall m :: m in ms ==> LaidMember(m)
  }

  predicate LaidElem(e: Elem) { Blank(e.before) && Laid(e.value) && Blank(e.after) }

  predicate LaidMember(m: Member) {
    Blank(m.before) && Closed(m.key) && Blank(m.afterKey) && Blank(m.beforeValue) && Laid(m.value) && Blank(m.after)
  }

  /** The byte at the start of a body with its closing quote. */
  function FirstOf(s: string): char { if s == "" then '\"' else s[0] }

  lemma {:induction false} ClosedUnique(s1: string, t1: string, s2: string, t2: string)
    requires Closed(s1) && Closed(s2) && s1 + "\"" + t1 == s2 + "\"" + t2
    ensures s1 == s2 && t1 == t2
  {
    var all := s1 + "\"" + t1;
    assert all[0] == FirstOf(s1) == FirstOf(s2);
    if s1 == "" || s2 == "" {
      assert all[1..] == t1 == t2;
    } else {
      var d := if s1[0] == '\\' then 2 else 1;
      assert all[d..] == s1[d..] + "\"" + t1 == s2[d..] + "\"" + t2;
      ClosedUnique(s1[d..], t1, s2[d..], t2);
      assert all[1] == s1[..d][d - 1] == s2[..d][d - 1] || d == 1;
      assert s1[..d] == all[..d] == s2[..d];
      assert s1 == s1[..d] + s1[d..] && s2 == s2[..d] + s2[d..];
    }
  }

  lemma FirstChar(v: Json)
    requires Laid(v)
    ensures Text(v) != ""
    ensures v.Str? <==> Text(v)[0] == '\"'
    ensures v.Arr? <==> Text(v)[0] == '['
    ensures v.Obj? <==> Text(v)[0] == '{'
    ensures !IsDelimiter(Text(v)[0])
  {}

  /** A text that does not start with a blank. */
  predicate Solid(x: string) { x != "" && !IsWs(x[0]) }

  lemma BlankExtent(b: string, x: string)
    requires Blank(b) && Solid(x)
    ensures forall k :: 0 <= k < |b| ==> IsWs((b + x)[k])
    ensures !IsWs((b + x)[|b|])
  {}

  lemma BlankUnique(b1: string, x1: string, b2: string, x2: string)
    requires Blank(b1) && Blank(b2) && Solid(x1) && Solid(x2) && b1 + x1 == b2 + x2
    ensures b1 == b2 && x1 == x2
  {
    var all := b1 + x1;
    BlankExtent(b1, x1);
    BlankExtent(b2, x2);
    assert |b1| == |b2|;
    assert b1 == all[..|b1|] == b2 && x1 == all[|b1|..] == x2;
  }

  lemma LiteralExtent(t: string, s: string)
    requires LiteralText(t) && Ends(s)
    ensures forall k :: 0 <= k < |t| ==> !IsDelimiter((t + s)[k])
    ensures |t| < |t + s| ==> IsDelimiter((t + s)[|t|])
  {}

  lemma LiteralUnique(t1: string, s1: string, t2: string, s2: string)
    requires LiteralText(t1) && LiteralText(t2) && Ends(s1) && Ends(s2) && t1 + s1 == t2 + s2
    ensures t1 == t2 && s1 == s2
  {
    var all := t1 + s1;
    LiteralExtent(t1, s1);
    LiteralExtent(t2, s2);
    assert |t1| == |t2|;
    assert t1 == all[..|t1|] == t2 && s1 == all[|t1|..] == s2;
  }

  lemma {:induction false} TextUnique(v1: Json, s1: string, v2: Json, s2: string)
    requires Laid(v1) && Laid(v2) && Ends(s1) && Ends(s2)
    requires Text(v1) + s1 == Text(v2) + s2
    ensures v1 == v2 && s1 == s2
    decreases v1, 0
  {
    hide Text;
    var all := Text(v1) + s1;
    FirstChar(v1);
    FirstChar(v2);
    assert all[0] == Text(v1)[0] == Text(v2)[0];
    if v1.Literal? {
      assert Text(v1) == v1.text && Text(v2) == v2.text by { LiteralShape(v1); LiteralShape(v2); }
      LiteralUnique(v1.text, s1, v2.text, s2);
    } else {
      BodyShape(v1, s1);
      BodyShape(v2, s2);
      assert all[1..] == Body(v1) + [Close(v1)] + s1 == Body(v2) + [Close(v2)] + s2;
      if v1.Str? {
        ClosedUnique(v1.chars, s1, v2.chars, s2);
      } else if v1.Arr? {
        ArrUnique(v1, s1, v2, s2);
      } else {
        ObjUnique(v1, s1, v2, s2);
      }
    }
  }

  /** Between the opening and the closing byte of a value that has them. */
  function Body(v: Json): string
    requires !v.Literal?
  {
    match v
    case Str(s) => s
    case Arr(b, es) => if es == [] then b else ElemsText(es)
    case Obj(b, ms) => if ms == [] then b else MembersText(ms)
  }

  function Close(v: Json): char
    requires !v.Literal?
  {
    match v case Str(_) => '\"' case Arr(_, _) => ']' case Obj(_, _) => '}'
  }

  lemma LiteralShape(v: Json)
    ensures v.Literal? ==> Text(v) == v.text
  {}

  lemma BodyShape(v: Json, s: string)
    requires !v.Literal?
    ensures Text(v) != "" && (Text(v) + s)[1..] == Body(v) + [Close(v)] + s
  {
    var open := match v case Str(_) => '\"' case Arr(_, _) => '[' case Obj(_, _) => '{';
    assert Text(v) == [open] + Body(v) + [Close(v)];
  }

  // ----- containers ------------------------------------------------------------------------

  /** What follows an element or a member, from its closing blank on. */
  function Tail(after: string, one: bool, rest: string, close: char, s: string): string {
    after + Next(one, rest, close, s)
  }

  function Next(one: bool, rest: string, close: char, s: string): string {
    if one then [close] + s else "," + (rest + [close] + s)
  }

  lemma TailEnds(after: string, one: bool, rest: string, close: char, s: string)
    requires Blank(after) && (close == ']' || close == '}')
    ensures Ends(Tail(after, one, rest, close, s)) && Solid(Next(one, rest, close, s))
  {
    assert Tail(after, one, rest, close, s)[0] == if after == "" then Next(one, rest, close, s)[0] else after[0];
  }

  lemma Regroup(e: string, rest: string, close: char, s: string)
    ensures e + "" + [close] + s == e + ([close] + s)
    ensures e + ("," + rest) + [close] + s == e + ("," + (rest + [close] + s))
  {}

  lemma ElemsSplit(es: seq<Elem>, s: string)
    requires es != []
    ensures var e := es[0];
      ElemsText(es) + "]" + s == e.before + (Text(e.value) + Tail(e.after, |es| == 1, ElemsText(es[1..]), ']', s))
  {
    hide Text;
    var e, t := es[0], Text(es[0].value);
    var stem := e.before + t + e.after;
    assert ElemsText(es) == stem + (if |es| == 1 then "" else "," + ElemsText(es[1..]));
    hide ElemsText;
    Regroup(stem, ElemsText(es[1..]), ']', s);
    ElemNest(e.before, t, e.after, Next(|es| == 1, ElemsText(es[1..]), ']', s));
  }

  lemma ElemNest(before: string, t: string, after: string, n: string)
    ensures before + t + after + n == before + (t + (after + n))
  {}

  lemma SolidStart(v: Json, s: string)
    requires Laid(v)
    ensures Solid(Text(v) + s) && (Text(v) + s)[0] != ']'
  {
    FirstChar(v);
    hide Text, Laid;
    assert (Text(v) + s)[0] == Text(v)[0];
  }

  lemma {:induction false} ArrUnique(v1: Json, s1: string, v2: Json, s2: string)
    requires v1.Arr? && v2.Arr? && Laid(v1) && Laid(v2)
    requires Body(v1) + "]" + s1 == Body(v2) + "]" + s2
    ensures v1 == v2 && s1 == s2
    decreases v1.elems, 2
  {
    var es1, es2 := v1.elems, v2.elems;
    if es1 != [] && es2 != [] {
      ElemsUnique(es1, s1, es2, s2);
    } else {
      var b1, x1 := ArrStart(v1, s1);
      var b2, x2 := ArrStart(v2, s2);
      BlankUnique(b1, x1, b2, x2);
      assert x1[0] == x2[0] && x1[1..] == x2[1..];
    }
  }

  lemma ArrStart(v: Json, s: string) returns (b: string, x: string)
    requires v.Arr? && Laid(v)
    ensures Body(v) + "]" + s == b + x && Blank(b) && Solid(x) && (x[0] == ']' <==> v.elems == [])
    ensures v.elems == [] ==> b == v.blank && x[1..] == s
  {
    var es := v.elems;
    if es == [] {
      b, x := v.blank, "]" + s;
      assert v.blank + "]" + s == v.blank + ("]" + s);
    } else {
      assert LaidElem(es[0]);
      ElemsSplit(es, s);
      b, x := es[0].before, Text(es[0].value) + Tail(es[0].after, |es| == 1, ElemsText(es[1..]), ']', s);
      SolidStart(es[0].value, Tail(es[0].after, |es| == 1, ElemsText(es[1..]), ']', s));
    }
  }

  lemma {:induction false} ElemsUnique(es1: seq<Elem>, s1: string, es2: seq<Elem>, s2: string)
    requires es1 != [] && es2 != []
    requires forall e :: e in es1 ==> LaidElem(e)
    requires forall e :: e in es2 ==> LaidElem(e)
    requires ElemsText(es1) + "]" + s1 == ElemsText(es2) + "]" + s2
    ensures es1 == es2 && s1 == s2
    decreases es1, 1
  {
    hide Text, Laid, Tail, Next, Solid, ElemsText;
    var e1, r1 := es1[0], ElemsText(es1[1..]);
    var e2, r2 := es2[0], ElemsText(es2[1..]);
    assert LaidElem(e1) && LaidElem(e2);
    var t1, t2 := Tail(e1.after, |es1| == 1, r1, ']', s1), Tail(e2.after, |es2| == 1, r2, ']', s2);
    ElemsSplit(es1, s1);
    ElemsSplit(es2, s2);
    SolidStart(e1.value, t1);
    SolidStart(e2.value, t2);
    TailEnds(e1.after, |es1| == 1, r1, ']', s1);
    TailEnds(e2.after, |es2| == 1, r2, ']', s2);
    BlankUnique(e1.before, Text(e1.value) + t1, e2.before, Text(e2.value) + t2);
    TextUnique(e1.value, t1, e2.value, t2);
    TailUnique(e1.after, |es1| == 1, r1, s1, e2.after, |es2| == 1, r2, s2, ']');
    if |es1| > 1 {
      ElemsUnique(es1[1..], s1, es2[1..], s2);
    }
    assert es1 == [es1[0]] + es1[1..] && es2 == [es2[0]] + es2[1..];
  }

  lemma TailUnique(a1: string, one1: bool, r1: string, s1: string, a2: string, one2: bool, r2: string, s2: string, close: char)
    requires Blank(a1) && Blank(a2) && (close == ']' || close == '}')
    requires Tail(a1, one1, r1, close, s1) == Tail(a2, one2, r2, close, s2)
    ensures a1 == a2 && one1 == one2
    ensures if one1 then s1 == s2 else r1 + [close] + s1 == r2 + [close] + s2
  {
    TailEnds(a1, one1, r1, close, s1);
    TailEnds(a2, one2, r2, close, s2);
    var n1, n2 := Next(one1, r1, close, s1), Next(one2, r2, close, s2);
    BlankUnique(a1, n1, a2, n2);
    assert n1[0] == n2[0] && n1[1..] == n2[1..];
    assert n1[1..] == if one1 then s1 else r1 + [close] + s1;
    assert n2[1..] == if one2 then s2 else r2 + [close] + s2;
  }

  /** A member up to and including its colon, then the rest. */
  function Keyed(m: Member, x: string): string {
    m.before + ("\"" + (m.key + "\"" + (m.afterKey + (":" + (m.beforeValue + x)))))
  }

  lemma MembersSplit(ms: seq<Member>, s: string)
    requires ms != []
    ensures var m := ms[0];
      MembersText(ms) + "}" + s == Keyed(m, Text(m.value) + Tail(m.after, |ms| == 1, MembersText(ms[1..]), '}', s))
  {
    hide Text;
    var m, t := ms[0], Text(ms[0].value);
    var stem := m.before + Quoted(m.key) + m.afterKey + ":" + m.beforeValue + t + m.after;
    assert MembersText(ms) == stem + (if |ms| == 1 then "" else "," + MembersText(ms[1..]));
    hide MembersText;
    Regroup(stem, MembersText(ms[1..]), '}', s);
    KeyedNest(m, t, Next(|ms| == 1, MembersText(ms[1..]), '}', s));
  }

  lemma KeyedNest(m: Member, t: string, n: string)
    ensures m.before + Quoted(m.key) + m.afterKey + ":" + m.beforeValue + t + m.after + n == Keyed(m, t + (m.after + n))
  {
    var x := t + (m.after + n);
    assert m.before + Quoted(m.key) + m.afterKey + ":" + m.beforeValue + t + m.after + n
        == m.before + Quoted(m.key) + m.afterKey + ":" + m.beforeValue + x;
    assert Quoted(m.key) + m.afterKey + ":" + m.beforeValue + x == "\"" + (m.key + "\"" + (m.afterKey + (":" + (m.beforeValue + x))));
    assert m.before + Quoted(m.key) + m.afterKey + ":" + m.beforeValue + x
        == m.before + (Quoted(m.key) + m.afterKey + ":" + m.beforeValue + x);
  }

  lemma KeyedUnique(m1: Member, x1: string, m2: Member, x2: string)
    requires LaidMember(m1) && LaidMember(m2) && Solid(x1) && Solid(x2) && Keyed(m1, x1) == Keyed(m2, x2)
    ensures m1.before == m2.before && m1.key == m2.key && m1.afterKey == m2.afterKey && m1.beforeValue == m2.beforeValue && x1 == x2
  {
    hide Laid, Closed;
    var c1, c2 := m1.beforeValue + x1, m2.beforeValue + x2;
    var a1, a2 := m1.afterKey + (":" + c1), m2.afterKey + (":" + c2);
    var k1, k2 := m1.key + "\"" + a1, m2.key + "\"" + a2;
    BlankUnique(m1.before, "\"" + k1, m2.before, "\"" + k2);
    assert k1 == ("\"" + k1)[1..] == ("\"" + k2)[1..] == k2;
    ClosedUnique(m1.key, a1, m2.key, a2);
    BlankUnique(m1.afterKey, ":" + c1, m2.afterKey, ":" + c2);
    assert c1 == (":" + c1)[1..] == (":" + c2)[1..] == c2;
    BlankUnique(m1.beforeValue, x1, m2.beforeValue, x2);
  }

  lemma {:induction false} ObjUnique(v1: Json, s1: string, v2: Json, s2: string)
    requires v1.Obj? && v2.Obj? && Laid(v1) && Laid(v2)
    requires Body(v1) + "}" + s1 == Body(v2) + "}" + s2
    ensures v1 == v2 && s1 == s2
    decreases v1.members, 2
  {
    var ms1, ms2 := v1.members, v2.members;
    if ms1 != [] && ms2 != [] {
      MembersUnique(ms1, s1, ms2, s2);
    } else {
      var b1, x1 := ObjStart(v1, s1);
      var b2, x2 := ObjStart(v2, s2);
      BlankUnique(b1, x1, b2, x2);
      assert x1[0] == x2[0] && x1[1..] == x2[1..];
    }
  }

  lemma ObjStart(v: Json, s: string) returns (b: string, x: string)
    requires v.Obj? && Laid(v)
    ensures Body(v) + "}" + s == b + x && Blank(b) && Solid(x) && (x[0] == '}' <==> v.members == [])
    ensures v.members == [] ==> b == v.blank && x[1..] == s
  {
    var ms := v.members;
    if ms == [] {
      b, x := v.blank, "}" + s;
      assert v.blank + "}" + s == v.blank + ("}" + s);
    } else {
      var m := ms[0];
      assert LaidMember(m);
      MembersSplit(ms, s);
      b := m.before;
      x := "\"" + (m.key + "\"" + (m.afterKey + (":" + (m.beforeValue
           + (Text(m.value) + Tail(m.after, |ms| == 1, MembersText(ms[1..]), '}', s))))));
    }
  }

  lemma {:induction false} MembersUnique(ms1: seq<Member>, s1: string, ms2: seq<Member>, s2: string)
    requires ms1 != [] && ms2 != []
    requires forall m :: m in ms1 ==> LaidMember(m)
    requires forall m :: m in ms2 ==> LaidMember(m)
    requires MembersText(ms1) + "}" + s1 == MembersText(ms2) + "}" + s2
    ensures ms1 == ms2 && s1 == s2
    decreases ms1, 1
  {
    hide Text, Laid, Tail, Next, Solid, MembersText, Keyed;
    var m1, r1 := ms1[0], MembersText(ms1[1..]);
    var m2, r2 := ms2[0], MembersText(ms2[1..]);
    assert LaidMember(m1) && LaidMember(m2);
    var t1, t2 := Tail(m1.after, |ms1| == 1, r1, '}', s1), Tail(m2.after, |ms2| == 1, r2, '}', s2);
    MembersSplit(ms1, s1);
    MembersSplit(ms2, s2);
    SolidStart(m1.value, t1);
    SolidStart(m2.value, t2);
    TailEnds(m1.after, |ms1| == 1, r1, '}', s1);
    TailEnds(m2.after, |ms2| == 1, r2, '}', s2);
    KeyedUnique(m1, Text(m1.value) + t1, m2, Text(m2.value) + t2);
    TextUnique(m1.value, t1, m2.value, t2);
    TailUnique(m1.after, |ms1| == 1, r1, s1, m2.after, |ms2| == 1, r2, s2, '}');
    if |ms1| > 1 {
      MembersUnique(ms1[1..], s1, ms2[1..], s2);
    }
    assert ms1 == [ms1[0]] + ms1[1..] && ms2 == [ms2[0]] + ms2[1..];
  }
}
