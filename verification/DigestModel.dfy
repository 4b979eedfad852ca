/** Digest challenges and credentials (qhttpauthenticator.cpp): name and value pairs, section 3.2 of RFC 2617. */
module DigestModel {

  const QUOTE := '"'
  const BACKSLASH := '\\'

  predicate IsBlank(c: char) {
    c == ' ' || c == '\n' || c == '\r'
  }

  function SkipBlanks(s: string): (t: string)
    ensures |t| <= |s| && t == s[|s| - |t|..]
  {
    if s != "" && IsBlank(s[0]) then SkipBlanks(s[1..]) else s
  }

  /** What is in front of the first c. */
  function Until(s: string, c: char): (t: string)
    ensures t <= s && c !in t && (|t| < |s| ==> s[|t|] == c)
  {
    if s == "" || s[0] == c then "" else [s[0]] + Until(s[1..], c)
  }

  /** A value up to its end, and what follows; a backslash takes the next character as it is. */
  function ReadValue(s: string, end: char): (r: (string, string))
    ensures |r.1| <= |s| && r.1 == s[|s| - |r.1|..]
  {
    if s == "" then ("", "")
    else if s[0] == BACKSLASH && |s| > 1 then
      var (value, rest) := ReadValue(s[2..], end);
      ([s[1]] + value, rest)
    else if s[0] == end then ("", s)
    else
      var (value, rest) := ReadValue(s[1..], end);
      ([s[0]] + value, rest)
  }

  type Pair = (string, string)

  /** The pairs of a challenge, in order. */
  function Pairs(s: string): seq<Pair>
    decreases |s|, 2
  {
    if s == "" then [] else PairsAt(SkipBlanks(s))
  }

  /** From the start of a key on. */
  function PairsAt(t: string): seq<Pair>
    decreases |t|, 1
  {
    var key := Until(t, '=');
    if |t| - |key| <= 1 then [] else PairsAtValue(key, t[|key| + 1..])
  }

  /** From the value of a key on. */
  function PairsAtValue(key: string, v: string): seq<Pair>
    requires v != ""
    decreases |v|, 0
  {
    var quoted := v[0] == QUOTE;
    var w := if quoted then v[1..] else v;
    if w == "" then []
    else
      var (value, rest) := ReadValue(w, if quoted then QUOTE else ',');
      var skipped := Until(rest, ',');
      [(key, value)] + if |skipped| == |rest| then [] else Pairs(rest[|skipped| + 1..])
  }

  type Options = map<string, string>

  function Collect(pairs: seq<Pair>, options: Options): Options
    decreases |pairs|
  {
    if pairs == [] then options else Collect(pairs[1..], options[pairs[0].0 := pairs[0].1])
  }

  function Value(options: Options, key: string): string {
    if key in options then options[key] else ""
  }

  function SplitCommas(s: string): seq<string>
    decreases |s|
  {
    var part := Until(s, ',');
    [part] + if |part| == |s| then [] else SplitCommas(s[|part| + 1..])
  }

  /** Only the quality of protection "auth" is supported. */
  function CheckQop(options: Options): Options {
    if Value(options, "qop") == "" then options
    else if "auth" !in SplitCommas(Value(options, "qop")) then map[]
    else options["qop" := "auth"]
  }

  function Challenge(s: string): Options {
    CheckQop(Collect(Pairs(s), map[]))
  }

  // ---- Printing. ----

  datatype Field = Field(key: string, value: string, quoted: bool)

  function Text(f: Field): string {
    if f.quoted then [QUOTE] + f.value + [QUOTE] else f.value
  }

  function PrintField(f: Field): string {
    f.key + "=" + Text(f)
  }

  function PrintFields(fs: seq<Field>): string {
    if fs == [] then "" else if |fs| == 1 then PrintField(fs[0]) else PrintField(fs[0]) + ", " + PrintFields(fs[1..])
  }

  /** What is put into the credentials. */
  datatype Credentials = Credentials(
    user: string, realm: string, nonce: string, path: string, opaqueData: string, response: string,
    algorithm: string, qop: string, nonceCount: string, cnonce: string)

  function IdentityFields(c: Credentials): seq<Field> {
    [Field("username", c.user, true), Field("realm", c.realm, true), Field("nonce", c.nonce, true), Field("uri", c.path, true)]
  }

  function ResponseFields(c: Credentials): seq<Field> {
    (if c.opaqueData == "" then IdentityFields(c) else IdentityFields(c) + [Field("opaque", c.opaqueData, true)]) +
    [Field("response", c.response, true)]
  }

  function AlgorithmFields(c: Credentials): seq<Field> {
    if c.algorithm == "" then ResponseFields(c) else ResponseFields(c) + [Field("algorithm", c.algorithm, false)]
  }

  function FieldsOf(c: Credentials): seq<Field> {
    if c.qop == "" then AlgorithmFields(c)
    else AlgorithmFields(c) + [Field("qop", c.qop, false)] + [Field("nc", c.nonceCount, false)] + [Field("cnonce", c.cnonce, true)]
  }

  // ---- Reading back what was printed. ----

  predicate Plain(s: string) {
    QUOTE !in s && BACKSLASH !in s
  }

  predicate GoodKey(key: string) {
    key != "" && '=' !in key && !IsBlank(key[0])
  }

  predicate WellFormed(f: Field) {
    && GoodKey(f.key)
    && if f.quoted then Plain(f.value) else f.value != "" && f.value[0] != QUOTE && ',' !in f.value && BACKSLASH !in f.value
  }

  lemma {:induction false} PlainIsRead(v: string, rest: string, end: char)
    requires end != BACKSLASH && end !in v && BACKSLASH !in v && (rest == "" || rest[0] == end)
    ensures ReadValue(v + rest, end) == (v, rest)
  {
    hide ReadValue;
    var s := v + rest;
    if v == "" {
      assert s == rest;
      NothingIsRead(rest, end);
    } else {
      assert s[0] == v[0] && s[1..] == v[1..] + rest;
      assert v == [v[0]] + v[1..];
      PlainIsRead(v[1..], rest, end);
      OneIsRead(s, end);
    }
  }

  lemma NothingIsRead(s: string, end: char)
    requires end != BACKSLASH && (s == "" || s[0] == end)
    ensures ReadValue(s, end) == ("", s)
  {
  }

  lemma OneIsRead(s: string, end: char)
    requires s != "" && s[0] != end && s[0] != BACKSLASH
    ensures ReadValue(s, end) == ([s[0]] + ReadValue(s[1..], end).0, ReadValue(s[1..], end).1)
  {
  }

  lemma {:induction false} UntilIs(s: string, c: char, rest: string)
    requires c !in s && (rest == "" || rest[0] == c)
    ensures Until(s + rest, c) == s
  {
    if s == "" {
      assert s + rest == rest;
    } else {
      assert (s + rest)[1..] == s[1..] + rest;
      UntilIs(s[1..], c, rest);
    }
  }

  lemma {:induction false} ValueIsRead(f: Field, more: string)
    requires WellFormed(f) && (more == "" || more[0] == ',')
    ensures PairsAtValue(f.key, Text(f) + more) == [(f.key, f.value)] + if more == "" then [] else Pairs(more[1..])
  {
    hide PairsAtValue, Until, ReadValue, Pairs, GoodKey;
    var v := Text(f) + more;
    if f.quoted {
      Unquoted(f.value, more);
      PlainIsRead(f.value, [QUOTE] + more, QUOTE);
      UntilIs([QUOTE], ',', more);
      PairIsRead(f.key, v, f.value, [QUOTE], more);
    } else {
      PlainIsRead(f.value, more, ',');
      assert "" + more == more;
      UntilIs("", ',', more);
      PairIsRead(f.key, v, f.value, "", more);
    }
  }

  lemma Unquoted(value: string, more: string)
    ensures ([QUOTE] + value + [QUOTE] + more)[1..] == value + ([QUOTE] + more)
  {
  }

  lemma PairIsRead(key: string, v: string, value: string, skipped: string, more: string)
    requires v != "" && (v[0] == QUOTE ==> |v| > 1) && (more == "" || more[0] == ',')
    requires ReadValue(if v[0] == QUOTE then v[1..] else v, if v[0] == QUOTE then QUOTE else ',') == (value, skipped + more)
    requires Until(skipped + more, ',') == skipped
    ensures PairsAtValue(key, v) == [(key, value)] + if more == "" then [] else Pairs(more[1..])
  {
    hide Until, ReadValue, Pairs;
    assert more != "" ==> (skipped + more)[|skipped| + 1..] == more[1..];
  }

  /** One field, at the end or with a comma behind it. */
  lemma {:induction false} FieldIsRead(f: Field, more: string)
    requires WellFormed(f) && (more == "" || more[0] == ',')
    ensures Pairs(PrintField(f) + more) == [(f.key, f.value)] + if more == "" then [] else Pairs(more[1..])
  {
    hide PairsAt, PairsAtValue, Until, SkipBlanks, Text, Pairs, WellFormed;
    var s := PrintField(f) + more;
    KeyAndText(f, more);
    TextIsSome(f);
    KeyIsGood(f);
    UntilIs(f.key, '=', "=" + (Text(f) + more));
    KeyIsFirst(f.key, "=" + (Text(f) + more));
    PairsStart(s);
    KeyIsRead(s, f.key);
    ValueIsRead(f, more);
  }

  lemma KeyAndText(f: Field, more: string)
    ensures var s := PrintField(f) + more;
            && s == f.key + ("=" + (Text(f) + more)) && |s| > |f.key|
            && s[|f.key| + 1..] == Text(f) + more
  {
    hide Text;
  }

  lemma KeyIsGood(f: Field)
    requires WellFormed(f)
    ensures GoodKey(f.key)
  {
  }

  lemma KeyIsRead(s: string, key: string)
    requires |s| > |key| + 1 && Until(s, '=') == key
    ensures PairsAt(s) == PairsAtValue(key, s[|key| + 1..])
  {
    hide Until, PairsAtValue;
  }

  lemma KeyIsFirst(key: string, rest: string)
    requires GoodKey(key)
    ensures SkipBlanks(key + rest) == key + rest
  {
  }

  lemma PairsStart(s: string)
    ensures s != "" ==> Pairs(s) == PairsAt(SkipBlanks(s))
  {
  }

  lemma TextIsSome(f: Field)
    requires WellFormed(f)
    ensures Text(f) != ""
  {
  }

  function PairsOf(fs: seq<Field>): seq<Pair> {
    if fs == [] then [] else [(fs[0].key, fs[0].value)] + PairsOf(fs[1..])
  }

  lemma BlankIsSkipped(s: string)
    requires s != "" && !IsBlank(s[0])
    ensures Pairs(" " + s) == Pairs(s)
  {
    hide PairsAt;
    assert (" " + s)[1..] == s;
    assert SkipBlanks(" " + s) == SkipBlanks(s);
  }

  /** Any list of printed fields is read back. */
  lemma {:induction false} FieldsAreRead(fs: seq<Field>)
    requires forall f | f in fs :: WellFormed(f)
    ensures Pairs(PrintFields(fs)) == PairsOf(fs)
  {
    hide Pairs, PrintField;
    if fs == [] {
      assert Pairs("") == [] by { NoPairs(); }
    } else if |fs| == 1 {
      assert PrintFields(fs) == PrintField(fs[0]) + "";
      FieldIsRead(fs[0], "");
    } else {
      var rest := PrintFields(fs[1..]);
      assert PrintFields(fs) == PrintField(fs[0]) + (", " + rest);
      FieldIsRead(fs[0], ", " + rest);
      assert (", " + rest)[1..] == " " + rest;
      StartsWithKey(fs[1..]);
      BlankIsSkipped(rest);
      FieldsAreRead(fs[1..]);
    }
  }

  lemma NoPairs()
    ensures Pairs("") == []
  {
  }

  lemma StartsWithKey(fs: seq<Field>)
    requires fs != [] && WellFormed(fs[0])
    ensures PrintFields(fs) != "" && PrintFields(fs)[0] == fs[0].key[0]
  {
    assert PrintField(fs[0])[0] == fs[0].key[0];
  }

  /** Nothing in the credentials needs quoting, and what is printed without quotes is one word. */
  predicate Printable(c: Credentials) {
    && Plain(c.user) && Plain(c.realm) && Plain(c.nonce) && Plain(c.path) && Plain(c.opaqueData) && Plain(c.response)
    && Plain(c.algorithm) && ',' !in c.algorithm && (c.qop == "" || c.qop == "auth") && Plain(c.cnonce)
    && c.nonceCount != "" && Plain(c.nonceCount) && ',' !in c.nonceCount
  }

  /** What the credentials say, by name. */
  function OptionsOf(c: Credentials): Options {
    var o := map["username" := c.user]["realm" := c.realm]["nonce" := c.nonce]["uri" := c.path];
    var p := (if c.opaqueData == "" then o else o["opaque" := c.opaqueData])["response" := c.response];
    var q := if c.algorithm == "" then p else p["algorithm" := c.algorithm];
    if c.qop == "" then q else q["qop" := c.qop]["nc" := c.nonceCount]["cnonce" := c.cnonce]
  }

  lemma KeysAreGood()
    ensures GoodKey("username") && GoodKey("realm") && GoodKey("nonce") && GoodKey("uri") && GoodKey("opaque")
  {
  }

  lemma MoreKeysAreGood()
    ensures GoodKey("response") && GoodKey("algorithm") && GoodKey("qop") && GoodKey("nc") && GoodKey("cnonce")
  {
  }

  lemma AllWellFormed(fs: seq<Field>, f: Field)
    requires WellFormed(f) && forall g | g in fs :: WellFormed(g)
    ensures forall g | g in fs + [f] :: WellFormed(g)
  {
    hide WellFormed;
  }

  lemma AuthIsPlain()
    ensures Plain("auth") && ',' !in "auth"
  {
  }

  lemma FieldsAreWellFormed(c: Credentials)
    requires Printable(c)
    ensures forall f | f in FieldsOf(c) :: WellFormed(f)
  {
    hide Plain, GoodKey;
    IdentityIsWellFormed(c);
    MoreKeysAreGood();
    ResponseIsWellFormed(c);
    AuthIsPlain();
    PlainStarts(c.algorithm);
    PlainStarts(c.qop);
    PlainStarts(c.nonceCount);
    var rs, fs := ResponseFields(c), AlgorithmFields(c);
    hide ResponseFields;
    if c.algorithm != "" {
      AllWellFormed(rs, Field("algorithm", c.algorithm, false));
    }
    if c.qop != "" {
      AllWellFormed(fs, Field("qop", c.qop, false));
      AllWellFormed(fs + [Field("qop", c.qop, false)], Field("nc", c.nonceCount, false));
      AllWellFormed(fs + [Field("qop", c.qop, false)] + [Field("nc", c.nonceCount, false)], Field("cnonce", c.cnonce, true));
    }
  }

  lemma PlainStarts(s: string)
    requires Plain(s)
    ensures BACKSLASH !in s && (s != "" ==> s[0] != QUOTE)
  {
  }

  lemma IdentityIsWellFormed(c: Credentials)
    requires Printable(c)
    ensures forall f | f in IdentityFields(c) :: WellFormed(f)
  {
    hide Plain, GoodKey;
    KeysAreGood();
  }

  lemma ResponseIsWellFormed(c: Credentials)
    requires Printable(c)
    ensures forall f | f in ResponseFields(c) :: WellFormed(f)
  {
    hide Plain, GoodKey;
    KeysAreGood();
    MoreKeysAreGood();
    IdentityIsWellFormed(c);
    var fs := IdentityFields(c);
    AllWellFormed(fs, Field("opaque", c.opaqueData, true));
    AllWellFormed(if c.opaqueData == "" then fs else fs + [Field("opaque", c.opaqueData, true)],
                  Field("response", c.response, true));
  }

  lemma {:induction false} CollectAppend(a: seq<Pair>, b: seq<Pair>, options: Options)
    ensures Collect(a + b, options) == Collect(b, Collect(a, options))
    decreases |a|
  {
    if a == [] {
      assert a + b == b;
    } else {
      assert (a + b)[1..] == a[1..] + b;
      CollectAppend(a[1..], b, options[a[0].0 := a[0].1]);
    }
  }

  lemma {:induction false} PairsOfAppend(a: seq<Field>, b: seq<Field>)
    ensures PairsOf(a + b) == PairsOf(a) + PairsOf(b)
  {
    if a == [] {
      assert a + b == b;
    } else {
      assert (a + b)[1..] == a[1..] + b;
      PairsOfAppend(a[1..], b);
    }
  }

  /** One more field. */
  lemma CollectField(fs: seq<Field>, f: Field)
    ensures Collect(PairsOf(fs + [f]), map[]) == Collect(PairsOf(fs), map[])[f.key := f.value]
  {
    PairsOfAppend(fs, [f]);
    assert [f][1..] == [];
    assert PairsOf([f]) == [(f.key, f.value)];
    CollectAppend(PairsOf(fs), [(f.key, f.value)], map[]);
    var o := Collect(PairsOf(fs), map[]);
    assert [(f.key, f.value)][1..] == [];
    assert Collect([(f.key, f.value)], o) == o[f.key := f.value];
  }

  /** Parsing printed credentials gives every field that was printed, and no other. */
  lemma {:induction false} CredentialsRoundTrip(c: Credentials)
    requires Printable(c)
    ensures Challenge(PrintFields(FieldsOf(c))) == OptionsOf(c)
  {
    hide WellFormed, Plain, Collect, PairsOf, PrintFields, Pairs;
    var fs := FieldsOf(c);
    FieldsAreWellFormed(c);
    FieldsAreRead(fs);
    CollectAll(c);
    AuthIsAlone();
  }

  lemma AuthIsAlone()
    ensures "auth" in SplitCommas("auth")
  {
    UntilIs("auth", ',', "");
    assert "auth" + "" == "auth";
  }

  lemma {:induction false} CollectAll(c: Credentials)
    ensures Collect(PairsOf(FieldsOf(c)), map[]) == OptionsOf(c)
  {
    hide Collect, PairsOf, IdentityFields;
    CollectIdentity(c);
    CollectField(IdentityFields(c), Field("opaque", c.opaqueData, true));
    CollectField(if c.opaqueData == "" then IdentityFields(c) else IdentityFields(c) + [Field("opaque", c.opaqueData, true)],
                 Field("response", c.response, true));
    CollectField(ResponseFields(c), Field("algorithm", c.algorithm, false));
    var fs := AlgorithmFields(c);
    CollectField(fs, Field("qop", c.qop, false));
    CollectField(fs + [Field("qop", c.qop, false)], Field("nc", c.nonceCount, false));
    CollectField(fs + [Field("qop", c.qop, false)] + [Field("nc", c.nonceCount, false)], Field("cnonce", c.cnonce, true));
  }

  lemma {:induction false} CollectIdentity(c: Credentials)
    ensures Collect(PairsOf(IdentityFields(c)), map[])
            == map["username" := c.user]["realm" := c.realm]["nonce" := c.nonce]["uri" := c.path]
  {
    hide Collect, PairsOf;
    var fs: seq<Field> := [];
    CollectNone();
    CollectField(fs, Field("username", c.user, true));
    fs := fs + [Field("username", c.user, true)];
    CollectField(fs, Field("realm", c.realm, true));
    fs := fs + [Field("realm", c.realm, true)];
    CollectField(fs, Field("nonce", c.nonce, true));
    fs := fs + [Field("nonce", c.nonce, true)];
    CollectField(fs, Field("uri", c.path, true));
    fs := fs + [Field("uri", c.path, true)];
    assert fs == IdentityFields(c);
  }

  lemma CollectNone()
    ensures Collect(PairsOf([]), map[]) == map[]
  {
  }

  // ---- The printer does not escape. ----

  function Backslashes(n: nat): string {
    if n == 0 then "" else [BACKSLASH] + Backslashes(n - 1)
  }

  lemma {:induction false} NotReadBack(v: string, rest: string, n: nat)
    requires !Plain(v) || n > 0
    ensures ReadValue(v + [QUOTE] + rest, QUOTE).0 != Backslashes(n) + v
  {
    hide ReadValue, Backslashes;
    var s, w := v + [QUOTE] + rest, Backslashes(n) + v;
    ReadStep(s);
    BackslashFirst(n, v);
    if v == "" {
      assert s[0] == QUOTE;
    } else if v[0] == BACKSLASH && |v| == 1 {
      assert s[0] == BACKSLASH && s[1] == QUOTE;
      assert ReadValue(s, QUOTE).0[0] == QUOTE;
    } else if v[0] == BACKSLASH {
      assert s[0] == BACKSLASH && s[1] == v[1] && s[2..] == v[2..] + [QUOTE] + rest;
      NotReadBack(v[2..], rest, n + 1);
      if v[1] == BACKSLASH {
        assert v == [BACKSLASH] + [BACKSLASH] + v[2..];
        BackslashPair(n, v[2..]);
        assert w == [BACKSLASH] + (Backslashes(n + 1) + v[2..]);
        assert ReadValue(s, QUOTE).0[1..] == ReadValue(s[2..], QUOTE).0;
      } else {
        assert ReadValue(s, QUOTE).0[0] == v[1];
      }
    } else if v[0] == QUOTE {
      assert s[0] == QUOTE;
    } else {
      assert s[0] == v[0] && s[1..] == v[1..] + [QUOTE] + rest;
      if n == 0 {
        NotReadBack(v[1..], rest, 0);
        BackslashFirst(0, v[1..]);
        assert ReadValue(s, QUOTE).0[1..] == ReadValue(s[1..], QUOTE).0;
      } else {
        assert ReadValue(s, QUOTE).0[0] == v[0];
      }
    }
  }

  lemma ReadStep(s: string)
    requires s != ""
    ensures s[0] == BACKSLASH && |s| > 1 ==> ReadValue(s, QUOTE).0 == [s[1]] + ReadValue(s[2..], QUOTE).0
    ensures s[0] == QUOTE ==> ReadValue(s, QUOTE).0 == ""
    ensures s[0] != QUOTE && s[0] != BACKSLASH ==> ReadValue(s, QUOTE).0 == [s[0]] + ReadValue(s[1..], QUOTE).0
  {
  }

  lemma BackslashFirst(n: nat, v: string)
    ensures n == 0 ==> Backslashes(n) + v == v
    ensures n > 0 ==> |Backslashes(n) + v| > 0 && (Backslashes(n) + v)[0] == BACKSLASH
  {
  }

  lemma BackslashPair(n: nat, v: string)
    ensures Backslashes(n) + ([BACKSLASH] + [BACKSLASH] + v) == [BACKSLASH] + (Backslashes(n + 1) + v)
  {
    hide Backslashes;
    MoreBackslashes(n);
    MoreBackslashesFirst(n);
    var b := Backslashes(n);
    assert b + ([BACKSLASH] + [BACKSLASH] + v) == b + [BACKSLASH] + [BACKSLASH] + v;
  }

  lemma MoreBackslashesFirst(n: nat)
    ensures Backslashes(n + 1) == [BACKSLASH] + Backslashes(n)
  {
  }

  lemma {:induction false} MoreBackslashes(n: nat)
    ensures Backslashes(n + 1) == Backslashes(n) + [BACKSLASH]
  {
    if n > 0 {
      MoreBackslashes(n - 1);
    }
  }

  /** A value that is printed between quotes is read back if and only if it holds no quote and no backslash. */
  lemma QuotedRoundTrip(v: string, rest: string)
    ensures ReadValue(v + [QUOTE] + rest, QUOTE).0 == v <==> Plain(v)
  {
    if Plain(v) {
      assert v + [QUOTE] + rest == v + ([QUOTE] + rest);
      PlainIsRead(v, [QUOTE] + rest, QUOTE);
    } else {
      NotReadBack(v, rest, 0);
      assert Backslashes(0) + v == v;
    }
  }

  // ---- The nonce count. ----

  function HexChar(d: nat): char
    requires d < 16
  {
    if d < 10 then ('0' as int + d) as char else ('a' as int + d - 10) as char
  }

  function Hex(n: nat): (s: string)
    ensures s != "" && ',' !in s && Plain(s)
  {
    if n < 16 then [HexChar(n)] else Hex(n / 16) + [HexChar(n % 16)]
  }

  function PadLeft(s: string): (t: string)
    ensures |t| >= 8 && (s != "" && ',' !in s && Plain(s) ==> ',' !in t && Plain(t))
    decreases 8 - |s|
  {
    if |s| < 8 then PadLeft("0" + s) else s
  }

  function Power16(k: nat): nat {
    if k == 0 then 1 else 16 * Power16(k - 1)
  }

  lemma {:induction false} HexLength(n: nat, k: nat)
    requires n < Power16(k) && k > 0
    ensures |Hex(n)| <= k
    decreases k
  {
    if n >= 16 {
      HexLength(n / 16, k - 1);
    }
  }

  lemma {:induction false} PadLength(s: string)
    requires |s| <= 8
    ensures |PadLeft(s)| == 8
    decreases 8 - |s|
  {
    if |s| < 8 {
      PadLength("0" + s);
    }
  }

  const HEXADECIMAL := "0123456789abcdef"

  /** s writes n in lower-case hexadecimal digits, with any leading zeros. */
  predicate IsHexNumeral(s: string, n: nat) {
    if s == "" then n == 0 else s[|s| - 1] == HEXADECIMAL[n % 16] && IsHexNumeral(s[..|s| - 1], n / 16)
  }

  lemma HexCharIs(k: nat)
    requires k < 16
    ensures HexChar(k) == HEXADECIMAL[k]
  {
    match k {
      case 0 => case 1 => case 2 => case 3 => case 4 => case 5 => case 6 => case 7 =>
      case 8 => case 9 => case 10 => case 11 => case 12 => case 13 => case 14 => case 15 =>
    }
  }

  lemma {:induction false} HexIsNumeral(n: nat)
    ensures IsHexNumeral(Hex(n), n)
  {
    hide HexChar;
    HexCharIs(n % 16);
    var s := Hex(n);
    if n >= 16 {
      HexIsNumeral(n / 16);
      assert s[..|s| - 1] == Hex(n / 16);
    } else {
      assert s[..|s| - 1] == "";
    }
  }

  lemma {:induction false} LeadingZero(s: string, n: nat)
    requires IsHexNumeral(s, n)
    ensures IsHexNumeral("0" + s, n)
  {
    if s == "" {
      assert ("0" + s)[..0] == "";
    } else {
      assert ("0" + s)[..|s|] == "0" + s[..|s| - 1];
      LeadingZero(s[..|s| - 1], n / 16);
    }
  }

  lemma {:induction false} PaddedIsNumeral(s: string, n: nat)
    requires IsHexNumeral(s, n)
    ensures IsHexNumeral(PadLeft(s), n)
    decreases 8 - |s|
  {
    if |s| < 8 {
      LeadingZero(s, n);
      PaddedIsNumeral("0" + s, n);
    }
  }

  /** The nonce count is written in hexadecimal, with eight digits, as RFC 2617 asks for, as long as it fits. */
  lemma NonceCountHasEightDigits(n: nat)
    requires n < 0x1_0000_0000
    ensures |PadLeft(Hex(n))| == 8 && IsHexNumeral(PadLeft(Hex(n)), n)
  {
    assert Power16(4) == 0x1_0000;
    assert Power16(8) == 0x1_0000_0000;
    HexLength(n, 8);
    PadLength(Hex(n));
    HexIsNumeral(n);
    PaddedIsNumeral(Hex(n), n);
  }

  // ---- Quotes. ----

  /** A field is printed as name and value, some values in double quotes. */
  lemma FieldIsPrinted(f: Field)
    ensures PrintField(f) == if f.quoted then f.key + "=" + ("\"" + f.value + "\"") else f.key + "=" + f.value
  {
  }

  /** A value in double quotes ends at the next one, unless that has a backslash in front of it, which is dropped. */
  lemma EscapedIsRead(c: char, rest: string)
    ensures ReadValue("\\" + [c] + rest, '"') == ([c] + ReadValue(rest, '"').0, ReadValue(rest, '"').1)
    ensures ReadValue("\"" + rest, '"') == ("", "\"" + rest)
  {
    var s := "\\" + [c] + rest;
    assert s[0] == '\\' && s[1] == c && s[2..] == rest;
    assert ("\"" + rest)[0] == '"';
  }

  // ---- Quality of protection. ----

  /** The words between commas, joined again. */
  function Commas(words: seq<string>): string {
    if words == [] then "" else if |words| == 1 then words[0] else words[0] + "," + Commas(words[1..])
  }

  lemma {:induction false} WordsAreSplit(words: seq<string>)
    requires words != [] && forall w | w in words :: ',' !in w
    ensures SplitCommas(Commas(words)) == words
  {
    hide Until;
    var s, w := Commas(words), words[0];
    if |words| == 1 {
      UntilIs(w, ',', "");
      assert w + "" == s;
    } else {
      var rest := "," + Commas(words[1..]);
      assert s == w + rest;
      UntilIs(w, ',', rest);
      assert s[|w| + 1..] == Commas(words[1..]);
      WordsAreSplit(words[1..]);
      assert words == [w] + words[1..];
    }
  }

  /** A challenge that offers qualities of protection is taken with "auth" if that is one of them, and not at all otherwise. */
  lemma QopIsChecked(options: Options, words: seq<string>)
    requires forall w | w in words :: ',' !in w
    ensures "qop" !in options ==> CheckQop(options) == options
    ensures words != [] && Commas(words) != "" && "qop" in options && options["qop"] == Commas(words) ==>
              CheckQop(options) == if "auth" in words then options["qop" := "auth"] else map[]
  {
    hide SplitCommas, Commas;
    if words != [] {
      WordsAreSplit(words);
    }
  }

  /** Every field of printed credentials is found under its name; those that are empty are left out. */
  lemma CredentialsAreNamed(c: Credentials)
    requires Printable(c)
    ensures var o := Challenge(PrintFields(FieldsOf(c)));
            && Value(o, "username") == c.user && Value(o, "realm") == c.realm && Value(o, "nonce") == c.nonce
            && Value(o, "uri") == c.path && Value(o, "opaque") == c.opaqueData && Value(o, "response") == c.response
            && Value(o, "algorithm") == c.algorithm && Value(o, "qop") == c.qop
            && Value(o, "nc") == (if c.qop == "" then "" else c.nonceCount)
            && Value(o, "cnonce") == (if c.qop == "" then "" else c.cnonce)
  {
    hide Challenge, Printable, PrintFields, FieldsOf;
    CredentialsRoundTrip(c);
  }
}
