/** Cache keys of the query session: a text encoding of the request, compared as a C string. */
module SessionKeys {
  import opened Ids
  import opened Sequences

  // ---- numbers ----

  function DigitChar(d: nat): char
    requires d < 10
  {
    '0' + (d as char)
  }

  /** The decimal digits of n, as printf writes them. */
  function Digits(n: nat): string {
    if n < 10 then [DigitChar(n)] else Digits(n / 10) + [DigitChar(n % 10)]
  }

  function ValueOf(digits: string): int {
    if digits == "" then 0
    else 10 * ValueOf(digits[..|digits| - 1]) + (digits[|digits| - 1] as int - '0' as int)
  }

  lemma {:induction false} DigitsAreInvertible(n: nat)
    ensures ValueOf(Digits(n)) == n
    ensures forall i :: 0 <= i < |Digits(n)| ==> '0' <= Digits(n)[i] <= '9'
  {
    if n >= 10 {
      DigitsAreInvertible(n / 10);
      assert Digits(n)[..|Digits(n)| - 1] == Digits(n / 10);
    } else {
      assert ValueOf([DigitChar(n)][..0]) == 0;
    }
  }

  // ---- fields ----

  datatype Field = Number(number: nat) | Text(text: string)

  function EncodeField(f: Field): string {
    match f
    case Number(n) => Digits(n) + "|"
    case Text(s) => Digits(|s|) + ":" + s + "|"
  }

  function Encode(fields: seq<Field>): string {
    if fields == [] then "" else EncodeField(fields[0]) + Encode(fields[1..])
  }

  ghost predicate SameShape(a: seq<Field>, b: seq<Field>) {
    |a| == |b| && forall i :: 0 <= i < |a| ==> (a[i].Number? <==> b[i].Number?)
  }

  function First(s: string, c: char): (n: nat)
    ensures n <= |s| && (n < |s| ==> s[n] == c)
    ensures forall i :: 0 <= i < n ==> s[i] != c
  {
    if s == "" || s[0] == c then 0 else 1 + First(s[1..], c)
  }

  lemma FirstAfterToken(u: string, c: char, x: string)
    requires c !in u
    ensures First(u + [c] + x, c) == |u|
  {
    var s := u + [c] + x;
    assert s[|u|] == c;
    forall i | 0 <= i < |u| ensures s[i] != c {
      assert s[i] == u[i] && u[i] in u;
    }
  }

  /** A token without the separator can be told from what follows the separator. */
  lemma TokenSplit(u: string, v: string, c: char, x: string, y: string)
    requires c !in u && c !in v
    requires u + [c] + x == v + [c] + y
    ensures u == v && x == y
  {
    FirstAfterToken(u, c, x);
    FirstAfterToken(v, c, y);
    assert u + ([c] + x) == u + [c] + x && v + ([c] + y) == v + [c] + y;
    SamePrefix(u, [c] + x, v, [c] + y);
    SameTail([c], x, y);
  }

  lemma SamePrefix(u: string, x: string, v: string, y: string)
    requires u + x == v + y && |u| == |v|
    ensures u == v && x == y
  {
    assert u == (u + x)[..|u|] && v == (v + y)[..|v|];
    assert x == (u + x)[|u|..] && y == (v + y)[|v|..];
  }

  lemma SameTail(u: string, x: string, y: string)
    requires u + x == u + y
    ensures x == y
  {
    SamePrefix(u, x, u, y);
  }

  lemma NumberSplit(m: nat, n: nat, c: char, x: string, y: string)
    requires c < '0' || '9' < c
    requires Digits(m) + [c] + x == Digits(n) + [c] + y
    ensures m == n && x == y
  {
    DigitsAreInvertible(m);
    DigitsAreInvertible(n);
    TokenSplit(Digits(m), Digits(n), c, x, y);
  }

  lemma FieldSplit(a: Field, b: Field, x: string, y: string)
    requires a.Number? <==> b.Number?
    requires EncodeField(a) + x == EncodeField(b) + y
    ensures a == b && x == y
  {
    match a
    case Number(m) =>
      assert EncodeField(a) + x == Digits(m) + ['|'] + x && EncodeField(b) + y == Digits(b.number) + ['|'] + y;
      NumberSplit(m, b.number, '|', x, y);
    case Text(s) =>
      TextSplit(s, b.text, x, y);
  }

  lemma TextAfterLength(s: string, x: string)
    ensures EncodeField(Text(s)) + x == Digits(|s|) + [':'] + (s + "|" + x)
  {
    var u := Digits(|s|) + [':'];
    Assoc(u, s, "|");
    Assoc(u, s + "|", x);
  }

  lemma TextSplit(s: string, t: string, x: string, y: string)
    requires EncodeField(Text(s)) + x == EncodeField(Text(t)) + y
    ensures s == t && x == y
  {
    TextAfterLength(s, x);
    TextAfterLength(t, y);
    NumberSplit(|s|, |t|, ':', s + "|" + x, t + "|" + y);
    SamePrefix(s + "|", x, t + "|", y);
    SamePrefix(s, "|", t, "|");
  }

  lemma EncodeFirst(a: seq<Field>, x: string)
    requires a != []
    ensures Encode(a) + x == EncodeField(a[0]) + (Encode(a[1..]) + x)
  {
  }

  /** Fields can be read back from the front of a text, whatever follows them. */
  lemma {:induction false} FieldsSplit(a: seq<Field>, b: seq<Field>, x: string, y: string)
    requires SameShape(a, b)
    requires Encode(a) + x == Encode(b) + y
    ensures a == b && x == y
  {
    if a == [] {
      SamePrefix("", x, "", y);
    } else {
      EncodeFirst(a, x);
      EncodeFirst(b, y);
      FieldSplit(a[0], b[0], Encode(a[1..]) + x, Encode(b[1..]) + y);
      FieldsSplit(a[1..], b[1..], x, y);
      SameCons(a, b);
    }
  }

  lemma SameCons(a: seq<Field>, b: seq<Field>)
    requires a != [] && b != [] && a[0] == b[0] && a[1..] == b[1..]
    ensures a == b
  {
    assert a == [a[0]] + a[1..] && b == [b[0]] + b[1..];
  }

  lemma {:induction false} EncodeAppend(a: seq<Field>, b: seq<Field>)
    ensures Encode(a + b) == Encode(a) + Encode(b)
  {
    if a == [] {
      assert a + b == b;
    } else {
      calc {
        Encode(a + b);
        { assert (a + b)[0] == a[0] && (a + b)[1..] == a[1..] + b; }
        EncodeField(a[0]) + Encode(a[1..] + b);
        { EncodeAppend(a[1..], b); }
        EncodeField(a[0]) + (Encode(a[1..]) + Encode(b));
        Encode(a) + Encode(b);
      }
    }
  }

  // ---- C strings ----

  const NUL: char := '\0'

  predicate NulFree(s: string) {
    NUL !in s
  }

  /** What a comparison of NUL-terminated strings sees. */
  function CString(s: string): (c: string)
    ensures c <= s && NulFree(c)
    ensures |c| < |s| ==> s[|c|] == NUL
  {
    if s == "" || s[0] == NUL then "" else [s[0]] + CString(s[1..])
  }

  /** Text behind a NUL is not seen. */
  lemma {:induction false} CStringStops(s: string, x: string, y: string)
    requires !NulFree(s)
    ensures CString(s + x) == CString(s + y)
  {
    if s[0] != NUL {
      assert (s + x)[1..] == s[1..] + x && (s + y)[1..] == s[1..] + y;
      CStringStops(s[1..], x, y);
    }
  }

  ghost predicate NulFreeFields(fields: seq<Field>) {
    forall i :: 0 <= i < |fields| && fields[i].Text? ==> NulFree(fields[i].text)
  }

  lemma {:induction false} EncodeIsNulFree(fields: seq<Field>)
    ensures NulFreeFields(fields) <==> NulFree(Encode(fields))
  {
    if fields != [] {
      var first, rest := fields[0], fields[1..];
      EncodeIsNulFree(rest);
      match first {
        case Number(n) => DigitsAreInvertible(n);
        case Text(s) => DigitsAreInvertible(|s|);
      }
      assert first.Number? ==> NulFree(EncodeField(first));
      assert first.Text? ==> (NulFree(EncodeField(first)) <==> NulFree(first.text));
      assert fields == [first] + rest;
    }
  }

  // ---- requests ----

  datatype UsageMode = UsageCompile | UsageLink

  datatype EvalContext = EvalContext(
    config: string,
    platformId: string,
    compileLanguage: string,
    installPrefix: string,
    currentTargetId: Id,
    usageMode: UsageMode,
    buildInterfaceActive: bool,
    buildLocalInterfaceActive: bool,
    installInterfaceActive: bool)

  datatype EffectiveKind =
    | IncludeDirectories | CompileDefinitions | CompileOptions | CompileFeatures
    | LinkLibraries | LinkOptions | LinkDirectories

  datatype Request = Request(id: Id, kind: EffectiveKind, ctx: EvalContext)

  function KindNumber(kind: EffectiveKind): nat {
    match kind
    case IncludeDirectories => 0
    case CompileDefinitions => 1
    case CompileOptions => 2
    case CompileFeatures => 3
    case LinkLibraries => 4
    case LinkOptions => 5
    case LinkDirectories => 6
  }

  function UsageNumber(mode: UsageMode): nat {
    if mode.UsageCompile? then 0 else 1
  }

  function Flag(b: bool): nat {
    if b then 1 else 0
  }

  function FieldsBeforePrefix(r: Request): seq<Field> {
    [ Number(r.id),
      Number(KindNumber(r.kind)),
      Number(UsageNumber(r.ctx.usageMode)),
      Number(r.ctx.currentTargetId),
      Number(Flag(r.ctx.buildInterfaceActive)),
      Number(Flag(r.ctx.buildLocalInterfaceActive)),
      Number(Flag(r.ctx.installInterfaceActive)),
      Text(r.ctx.config),
      Text(r.ctx.platformId),
      Text(r.ctx.compileLanguage) ]
  }

  function Fields(r: Request): seq<Field> {
    FieldsBeforePrefix(r) + [Text(r.ctx.installPrefix)]
  }

  function KeyText(r: Request): string {
    "effective|" + Encode(Fields(r))
  }

  /** The key as the cache sees it. */
  function EffectiveKey(r: Request): string {
    CString(KeyText(r))
  }

  /** The builder appends the pieces one by one. */
  method BuildEffectiveKey(r: Request) returns (key: string)
    ensures key == EffectiveKey(r)
  {
    var sb := "";
    var fields := Fields(r);
    for i := 0 to |fields|
      invariant sb == Encode(fields[..i])
    {
      EncodeNext(fields, i);
      sb := sb + EncodeField(fields[i]);
    }
    assert fields[..|fields|] == fields;
    key := CString("effective|" + sb);
  }

  lemma EncodeNext(fields: seq<Field>, i: nat)
    requires i < |fields|
    ensures Encode(fields[..i + 1]) == Encode(fields[..i]) + EncodeField(fields[i])
  {
    assert fields[..i + 1] == fields[..i] + [fields[i]];
    EncodeAppend(fields[..i], [fields[i]]);
  }

  /** No NUL in any string, save that the install prefix may end with one. */
  predicate HasOwnKey(r: Request) {
    && NulFree(r.ctx.config)
    && NulFree(r.ctx.platformId)
    && NulFree(r.ctx.compileLanguage)
    && (r.ctx.installPrefix != "" ==> NulFree(r.ctx.installPrefix[..|r.ctx.installPrefix| - 1]))
  }

  lemma FieldsDetermineRequest(r: Request, s: Request)
    ensures SameShape(FieldsBeforePrefix(r), FieldsBeforePrefix(s))
    ensures FieldsBeforePrefix(r) == FieldsBeforePrefix(s) && r.ctx.installPrefix == s.ctx.installPrefix ==> r == s
  {
    if FieldsBeforePrefix(r) == FieldsBeforePrefix(s) {
      var a, b := FieldsBeforePrefix(r), FieldsBeforePrefix(s);
      assert a[0] == b[0] && a[1] == b[1] && a[2] == b[2] && a[3] == b[3] && a[4] == b[4];
      assert a[5] == b[5] && a[6] == b[6] && a[7] == b[7] && a[8] == b[8] && a[9] == b[9];
    }
  }

  lemma OwnFieldsAreNulFree(r: Request)
    ensures NulFree(Encode(FieldsBeforePrefix(r))) <==>
            NulFree(r.ctx.config) && NulFree(r.ctx.platformId) && NulFree(r.ctx.compileLanguage)
  {
    var a := FieldsBeforePrefix(r);
    EncodeIsNulFree(a);
    assert forall i :: 0 <= i < 7 ==> a[i].Number?;
    assert a[7] == Text(r.ctx.config) && a[8] == Text(r.ctx.platformId) && a[9] == Text(r.ctx.compileLanguage);
  }

  function AllButLast(s: string): string {
    if s == "" then "" else s[..|s| - 1]
  }

  function LastOf(s: string): string {
    if s == "" then "" else [s[|s| - 1]]
  }

  /** The key as text: everything before the last character of the install prefix, and the rest. */
  function KeyHead(r: Request): string {
    "effective|" + (Encode(FieldsBeforePrefix(r)) + PrefixHead(r.ctx.installPrefix))
  }

  function PrefixHead(p: string): string {
    Digits(|p|) + [':'] + AllButLast(p)
  }

  function KeyTail(r: Request): string {
    LastOf(r.ctx.installPrefix) + "|"
  }

  lemma KeyIsHeadAndTail(r: Request)
    ensures KeyText(r) == KeyHead(r) + KeyTail(r)
  {
    var p := r.ctx.installPrefix;
    EncodeAppend(FieldsBeforePrefix(r), [Text(p)]);
    PrefixField(p);
    Regroup("effective|", Encode(FieldsBeforePrefix(r)), PrefixHead(p), KeyTail(r));
  }

  lemma PrefixField(p: string)
    ensures Encode([Text(p)]) == PrefixHead(p) + (LastOf(p) + "|")
  {
    var u := Digits(|p|) + [':'];
    assert p == AllButLast(p) + LastOf(p);
    Assoc(u, AllButLast(p), LastOf(p));
    Assoc(u + AllButLast(p), LastOf(p), "|");
    assert Encode([Text(p)]) == EncodeField(Text(p));
  }

  lemma Regroup(a: string, b: string, c: string, d: string)
    ensures a + (b + (c + d)) == a + (b + c) + d
  {
    Assoc(b, c, d);
    Assoc(a, b + c, d);
  }

  lemma NulFreeSum(a: string, b: string)
    ensures NulFree(a + b) <==> NulFree(a) && NulFree(b)
  {
  }

  lemma LengthIsNulFree(n: nat)
    ensures NulFree(Digits(n) + [':'])
  {
    DigitsAreInvertible(n);
  }

  lemma HeadIsNulFree(r: Request)
    ensures NulFree(KeyHead(r)) <==> HasOwnKey(r)
  {
    var p := r.ctx.installPrefix;
    OwnFieldsAreNulFree(r);
    LengthIsNulFree(|p|);
    NulFreeSum(Digits(|p|) + [':'], AllButLast(p));
    NulFreeSum(Encode(FieldsBeforePrefix(r)), PrefixHead(p));
    NulFreeSum("effective|", Encode(FieldsBeforePrefix(r)) + PrefixHead(p));
  }

  /** The head, and what can follow it in another key, give the request away. */
  lemma HeadDeterminesRequest(r: Request, s: Request, rest: string)
    requires KeyHead(s) + KeyTail(s) == KeyHead(r) + rest
    requires rest == "" || rest[0] == KeyTail(r)[0]
    ensures r == s
  {
    var p, q := r.ctx.installPrefix, s.ctx.installPrefix;
    FieldsDetermineRequest(r, s);
    TaggedSplit("effective|", FieldsBeforePrefix(r), FieldsBeforePrefix(s), PrefixHead(p), PrefixHead(q), rest, KeyTail(s));
    PrefixesAreEqual(p, q, rest);
  }

  lemma TaggedSplit(tag: string, a: seq<Field>, b: seq<Field>, x: string, y: string, u: string, v: string)
    requires SameShape(a, b)
    requires tag + (Encode(a) + x) + u == tag + (Encode(b) + y) + v
    ensures a == b && x + u == y + v
  {
    Regroup(tag, Encode(a), x, u);
    Regroup(tag, Encode(b), y, v);
    SameTail(tag, Encode(a) + (x + u), Encode(b) + (y + v));
    FieldsSplit(a, b, x + u, y + v);
  }

  lemma PrefixesAreEqual(p: string, q: string, rest: string)
    requires PrefixHead(p) + rest == PrefixHead(q) + (LastOf(q) + "|")
    requires rest == "" || rest[0] == (LastOf(p) + "|")[0]
    ensures p == q
  {
    var tail := LastOf(q) + "|";
    Assoc(Digits(|p|) + [':'], AllButLast(p), rest);
    Assoc(Digits(|q|) + [':'], AllButLast(q), tail);
    NumberSplit(|p|, |q|, ':', AllButLast(p) + rest, AllButLast(q) + tail);
    SamePrefix(AllButLast(p), rest, AllButLast(q), tail);
    SameEnds(p, q);
  }

  lemma SameEnds(p: string, q: string)
    requires |p| == |q| && AllButLast(p) == AllButLast(q) && LastOf(p) == LastOf(q)
    ensures p == q
  {
    assert p == AllButLast(p) + LastOf(p) && q == AllButLast(q) + LastOf(q);
  }

  /** If the head of r has no NUL, every other request has another key. */
  lemma OwnKeyIsUnique(r: Request, s: Request)
    requires HasOwnKey(r) && EffectiveKey(r) == EffectiveKey(s)
    ensures r == s
  {
    HeadIsNulFree(r);
    KeyIsHeadAndTail(r);
    KeyIsHeadAndTail(s);
    var rest := AfterHead(KeyHead(r), KeyTail(r), KeyText(s));
    HeadDeterminesRequest(r, s, rest);
  }

  /** Texts that look the same as C strings share a head without NUL, and what comes next. */
  lemma AfterHead(h: string, t: string, full: string) returns (rest: string)
    requires NulFree(h) && t != "" && CString(h + t) == CString(full)
    ensures full == h + rest && (rest == "" || rest[0] == t[0])
  {
    var key := CString(full);
    CStringStartsWith(h, t);
    assert h <= key <= full;
    rest := full[|h|..];
    if rest != "" {
      assert (h + t)[|h|] == t[0];
      if key == h {
        assert full[|h|] == NUL;
      } else {
        assert key[|h|] == full[|h|];
      }
    }
  }

  lemma {:induction false} CStringStartsWith(h: string, t: string)
    requires NulFree(h)
    ensures h <= CString(h + t)
  {
    if h != "" {
      assert (h + t)[1..] == h[1..] + t && h[0] in h;
      CStringStartsWith(h[1..], t);
    }
  }

  /** With a NUL before the end, some other request shares the key. */
  lemma SharedKey(r: Request) returns (s: Request)
    requires !HasOwnKey(r)
    ensures s != r && EffectiveKey(s) == EffectiveKey(r)
    ensures s == r.(ctx := r.ctx.(installPrefix := s.ctx.installPrefix))
  {
    var p := r.ctx.installPrefix;
    OwnFieldsAreNulFree(r);
    if !NulFree(Encode(FieldsBeforePrefix(r))) {
      s := r.(ctx := r.ctx.(installPrefix := p + "x"));
      SharedBeforePrefix(r, s);
    } else {
      var q := AllButLast(p) + (if LastOf(p) == "x" then "y" else "x");
      s := r.(ctx := r.ctx.(installPrefix := q));
      SharedInPrefix(r, s);
    }
  }

  lemma SharedInPrefix(r: Request, s: Request)
    requires !HasOwnKey(r) && FieldsBeforePrefix(r) == FieldsBeforePrefix(s)
    requires var p, q := r.ctx.installPrefix, s.ctx.installPrefix;
             p != "" && q == AllButLast(p) + (if LastOf(p) == "x" then "y" else "x")
    ensures s != r && EffectiveKey(s) == EffectiveKey(r)
  {
    var p, q := r.ctx.installPrefix, s.ctx.installPrefix;
    assert AllButLast(q) == AllButLast(p) && LastOf(q) != LastOf(p);
    HeadIsNulFree(r);
    KeyIsHeadAndTail(r);
    KeyIsHeadAndTail(s);
    assert KeyHead(r) == KeyHead(s);
    CStringStops(KeyHead(r), KeyTail(r), KeyTail(s));
  }

  lemma SharedBeforePrefix(r: Request, s: Request)
    requires FieldsBeforePrefix(r) == FieldsBeforePrefix(s) && !NulFree(Encode(FieldsBeforePrefix(r)))
    ensures EffectiveKey(r) == EffectiveKey(s)
  {
    var e := Encode(FieldsBeforePrefix(r));
    var x, y := Encode([Text(r.ctx.installPrefix)]), Encode([Text(s.ctx.installPrefix)]);
    EncodeAppend(FieldsBeforePrefix(r), [Text(r.ctx.installPrefix)]);
    EncodeAppend(FieldsBeforePrefix(s), [Text(s.ctx.installPrefix)]);
    HiddenTail("effective|", e, x, y);
  }

  lemma HiddenTail(tag: string, e: string, x: string, y: string)
    requires !NulFree(e)
    ensures CString(tag + (e + x)) == CString(tag + (e + y))
  {
    Assoc(tag, e, x);
    Assoc(tag, e, y);
    CStringStops(tag + e, x, y);
  }

  /** The part of the key that no NUL can hide. */
  function Numbers(r: Request): seq<Field> {
    FieldsBeforePrefix(r)[..7]
  }

  lemma NumbersAreSeen(r: Request)
    ensures "effective|" + Encode(Numbers(r)) <= EffectiveKey(r)
  {
    var n, rest := Numbers(r), FieldsBeforePrefix(r)[7..] + [Text(r.ctx.installPrefix)];
    assert Fields(r) == n + rest;
    EncodeAppend(n, rest);
    Assoc("effective|", Encode(n), Encode(rest));
    EncodeIsNulFree(n);
    CStringStartsWith("effective|" + Encode(n), Encode(rest));
  }

  /** Requests that share a key differ in their strings only: they ask for the same kind of
      items of the same target. */
  lemma SameKeySameNumbers(r: Request, s: Request)
    requires EffectiveKey(r) == EffectiveKey(s)
    ensures r.id == s.id && r.kind == s.kind && r.ctx.usageMode == s.ctx.usageMode
    ensures r.ctx.currentTargetId == s.ctx.currentTargetId
  {
    NumbersAreSeen(r);
    NumbersAreSeen(s);
    var key, a, b := EffectiveKey(r), Encode(Numbers(r)), Encode(Numbers(s));
    var x, y := key[|"effective|" + a|..], key[|"effective|" + b|..];
    Assoc("effective|", a, x);
    Assoc("effective|", b, y);
    SameTail("effective|", a + x, b + y);
    FieldsSplit(Numbers(r), Numbers(s), x, y);
    NumbersInTurn(r, s);
  }

  lemma NumbersInTurn(r: Request, s: Request)
    requires Numbers(r) == Numbers(s)
    ensures r.id == s.id && r.kind == s.kind && r.ctx.usageMode == s.ctx.usageMode
    ensures r.ctx.currentTargetId == s.ctx.currentTargetId
  {
    var a, b := Numbers(r), Numbers(s);
    assert a[0] == b[0] && a[1] == b[1] && a[2] == b[2] && a[3] == b[3];
  }

  /** The key belongs to the request alone, exactly when no NUL cuts its text short before the
      last character of the install prefix. */
  lemma KeyIsUniqueExactlyWhen(r: Request)
    ensures HasOwnKey(r) <==> forall s :: EffectiveKey(s) == EffectiveKey(r) ==> s == r
  {
    if HasOwnKey(r) {
      forall s | EffectiveKey(s) == EffectiveKey(r) ensures s == r {
        OwnKeyIsUnique(r, s);
      }
    } else {
      var s := SharedKey(r);
    }
  }
}
