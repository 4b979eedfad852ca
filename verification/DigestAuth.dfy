/** QHttpAuthenticatorPrivate (qhttpauthenticator.cpp): the digest challenge and the credentials. */
module DigestAuth {
  import opened DigestModel

  class QHttpAuthenticatorPrivate {
    var nonceCount: nat
    var user: string
    var realm: string
    var cnonce: string

    constructor (user: string, realm: string, cnonce: string)
      ensures nonceCount == 0 && this.user == user && this.realm == realm && this.cnonce == cnonce
    {
      nonceCount := 0;
      this.user, this.realm, this.cnonce := user, realm, cnonce;
    }

    static method SkipBlanksAt(s: string, from: nat) returns (d: nat)
      requires from <= |s|
      ensures from <= d <= |s| && s[d..] == SkipBlanks(s[from..])
    {
      d := from;
      while d < |s| && IsBlank(s[d])
        invariant from <= d <= |s| && SkipBlanks(s[d..]) == SkipBlanks(s[from..])
      {
        assert s[d..][1..] == s[d + 1..];
        d := d + 1;
      }
    }

    static method FindAt(s: string, from: nat, c: char) returns (d: nat)
      requires from <= |s|
      ensures from <= d <= |s| && s[from..d] == Until(s[from..], c)
    {
      hide Until;
      d := from;
      UntilStep(s, d, c);
      while d < |s| && s[d] != c
        invariant from <= d <= |s| && |Until(s[from..], c)| == d - from + |Until(s[d..], c)|
      {
        UntilStep(s, d, c);
        d := d + 1;
      }
      UntilStep(s, d, c);
      assert s[from..d] == s[from..][..d - from];
    }

    static method ReadValueAt(s: string, from: nat, quote: bool) returns (value: string, d: nat)
      requires from <= |s|
      ensures from <= d <= |s| && (value, s[d..]) == ReadValue(s[from..], if quote then QUOTE else ',')
    {
      hide ReadValue;
      ghost var end := if quote then QUOTE else ',';
      ghost var all := ReadValue(s[from..], end);
      value, d := "", from;
      assert "" + all.0 == all.0;
      while d < |s|
        invariant from <= d <= |s|
        invariant (value + ReadValue(s[d..], end).0, ReadValue(s[d..], end).1) == all
      {
        ReadValueStep(s, d, end, value);
        var backslash := false;
        if s[d] == BACKSLASH && d < |s| - 1 {
          d := d + 1;
          backslash := true;
        }
        if !backslash {
          if quote {
            if s[d] == QUOTE {
              return;
            }
          } else {
            if s[d] == ',' {
              return;
            }
          }
        }
        value := value + [s[d]];
        d := d + 1;
      }
      ReadValueEnd(s, end, value);
    }

    /** The options of a challenge; none if it asks for a quality of protection that is not supported. */
    static method ParseDigestAuthenticationChallenge(challenge: string) returns (options: Options)
      ensures options == Challenge(challenge)
    {
      options := ParsePairs(challenge);
      var qop := Value(options, "qop");
      if qop != "" {
        var qopoptions := SplitCommas(qop);
        if "auth" !in qopoptions {
          return map[];
        }
        options := options["qop" := "auth"];
      }
    }

    /** What is left of the pairs from index d on; behind the end there is nothing. */
    static ghost function Left(s: string, d: nat): seq<Pair> {
      if d <= |s| then Pairs(s[d..]) else []
    }

    static method ParsePairs(s: string) returns (options: Options)
      ensures options == Collect(Pairs(s), map[])
    {
      hide Pairs;
      options := map[];
      var d := 0;
      assert s[0..] == s;
      NoPairs();
      while d < |s|
        invariant Collect(Left(s, d), options) == Collect(Pairs(s), map[])
        decreases |s| - d
      {
        var found, key, value, next := ParsePair(s, d);
        if !found {
          break;
        }
        assert Left(s, d)[1..] == Left(s, next);
        options := options[key := value];
        d := next;
      }
      assert d == |s| ==> s[d..] == "";
    }

    /** One round of the loop: a pair, and the index behind the comma that follows it. */
    static method ParsePair(s: string, from: nat) returns (found: bool, key: string, value: string, d: nat)
      requires from < |s|
      ensures if found then d > from && Left(s, from) == [(key, value)] + Left(s, d) else Left(s, from) == []
    {
      hide SkipBlanks, Pairs, PairsAtValue, Until;
      found, key, value := false, "", "";
      d := SkipBlanksAt(s, from);
      PairsStart(s[from..]);
      var start := d;
      d := FindAt(s, d, '=');
      key := s[start..d];
      assert |s[start..]| - |key| == |s| - d;
      d := d + 1;
      if d >= |s| {
        return;
      }
      assert s[start..][|key| + 1..] == s[d..];
      assert Left(s, from) == PairsAtValue(key, s[d..]);
      found, value, d := ParseValue(s, d, key);
    }

    /** The value of a pair, from behind its equals sign on. */
    static method ParseValue(s: string, from: nat, ghost key: string) returns (found: bool, value: string, d: nat)
      requires from < |s|
      ensures if found then d > from && PairsAtValue(key, s[from..]) == [(key, value)] + Left(s, d)
              else PairsAtValue(key, s[from..]) == []
    {
      hide ReadValue, Until, Pairs, Left;
      found, value, d := false, "", from;
      var quote := s[d] == QUOTE;
      ghost var v := s[d..];
      if quote {
        d := d + 1;
        assert v[1..] == s[d..];
      }
      if d >= |s| {
        return;
      }
      value, d := ReadValueAt(s, d, quote);
      var rest := d;
      d := FindAt(s, d, ',');
      BehindComma(s, rest, d);
      d := d + 1;
      found := true;
    }

    /** The credentials for a challenge and its response; the nonce count goes up by one. */
    method DigestMd5Credentials(challenge: string, path: string, response: string) returns (credentials: string)
      modifies this`nonceCount
      ensures nonceCount == old(nonceCount) + 1
      ensures var options := Challenge(challenge);
              credentials == PrintFields(FieldsOf(Credentials(user, realm, Value(options, "nonce"), path,
                Value(options, "opaque"), response, Value(options, "algorithm"), Value(options, "qop"),
                PadLeft(Hex(nonceCount)), cnonce)))
    {
      hide Challenge, PadLeft, Hex, PrintField;
      var options := ParseDigestAuthenticationChallenge(challenge);
      nonceCount := nonceCount + 1;
      var nonceCountString := Hex(nonceCount);
      ghost var digits := nonceCountString;
      while |nonceCountString| < 8
        invariant PadLeft(nonceCountString) == PadLeft(digits)
        modifies {}
        decreases 8 - |nonceCountString|
      {
        PadStep(nonceCountString);
        nonceCountString := "0" + nonceCountString;
      }
      PadStep(nonceCountString);
      var nonce := Value(options, "nonce");
      var opaqueData := Value(options, "opaque");
      var algorithm := Value(options, "algorithm");
      var qop := Value(options, "qop");
      ghost var c := Credentials(user, realm, nonce, path, opaqueData, response, algorithm, qop, nonceCountString, cnonce);
      hide FieldsOf, Value;
      credentials := PrintField(Field("username", user, true)) + ", ";
      credentials := credentials + PrintField(Field("realm", realm, true)) + ", ";
      credentials := credentials + PrintField(Field("nonce", nonce, true)) + ", ";
      credentials := credentials + PrintField(Field("uri", path, true));
      assert credentials == PrintFields(IdentityFields(c)) by { PrintIdentity(c); }
      credentials := credentials + ", ";
      if opaqueData != "" {
        PrintMore(IdentityFields(c), Field("opaque", opaqueData, true));
        credentials := credentials + PrintField(Field("opaque", opaqueData, true)) + ", ";
      }
      PrintMore(if opaqueData == "" then IdentityFields(c) else IdentityFields(c) + [Field("opaque", opaqueData, true)],
                Field("response", response, true));
      credentials := credentials + PrintField(Field("response", response, true));
      assert credentials == PrintFields(ResponseFields(c));
      if algorithm != "" {
        PrintMore(ResponseFields(c), Field("algorithm", algorithm, false));
        credentials := credentials + (", " + PrintField(Field("algorithm", algorithm, false)));
      }
      assert credentials == PrintFields(AlgorithmFields(c));
      if qop != "" {
        ghost var fs := AlgorithmFields(c);
        PrintMore(fs, Field("qop", qop, false));
        PrintMore(fs + [Field("qop", qop, false)], Field("nc", nonceCountString, false));
        PrintMore(fs + [Field("qop", qop, false)] + [Field("nc", nonceCountString, false)], Field("cnonce", cnonce, true));
        credentials := credentials + (", " + PrintField(Field("qop", qop, false)));
        credentials := credentials + (", " + PrintField(Field("nc", nonceCountString, false)));
        credentials := credentials + (", " + PrintField(Field("cnonce", cnonce, true)));
      }
      AllFields(c);
    }
  }

  lemma UntilStep(s: string, d: nat, c: char)
    requires d <= |s|
    ensures Until(s[d..], c) == if d == |s| || s[d] == c then "" else [s[d]] + Until(s[d + 1..], c)
  {
    assert d < |s| ==> s[d..][1..] == s[d + 1..];
  }

  /** One character, or one with a backslash in front of it. */
  lemma ReadValueStep(s: string, d: nat, end: char, value: string)
    requires d < |s| && end != BACKSLASH
    ensures var r := ReadValue(s[d..], end);
            if s[d] == BACKSLASH && d < |s| - 1 then
              var q := ReadValue(s[d + 2..], end);
              value + r.0 == value + [s[d + 1]] + q.0 && r.1 == q.1
            else if s[d] == end then value + r.0 == value && r.1 == s[d..]
            else
              var q := ReadValue(s[d + 1..], end);
              value + r.0 == value + [s[d]] + q.0 && r.1 == q.1
  {
    assert s[d..][1..] == s[d + 1..];
    assert d + 1 < |s| ==> s[d..][2..] == s[d + 2..] && s[d..][1] == s[d + 1];
  }

  lemma ReadValueEnd(s: string, end: char, value: string)
    ensures ReadValue(s[|s|..], end) == ("", "") && value + "" == value && s[|s|..] == ""
  {
  }

  /** What is left behind the next comma, which is at index d. */
  lemma BehindComma(s: string, rest: nat, d: nat)
    requires rest <= d <= |s| && s[rest..d] == Until(s[rest..], ',')
    ensures var r := s[rest..];
            var k := |Until(r, ',')|;
            QHttpAuthenticatorPrivate.Left(s, d + 1) == if k == |r| then [] else Pairs(r[k + 1..])
  {
    hide Until, Pairs;
    assert d < |s| ==> s[rest..][d - rest + 1..] == s[d + 1..];
  }

  lemma PadStep(s: string)
    ensures PadLeft(s) == if |s| < 8 then PadLeft("0" + s) else s
  {
  }

  lemma AllFields(c: Credentials)
    ensures FieldsOf(c) ==
            if c.qop == "" then AlgorithmFields(c)
            else AlgorithmFields(c) + [Field("qop", c.qop, false)] + [Field("nc", c.nonceCount, false)] +
                 [Field("cnonce", c.cnonce, true)]
  {
  }

  lemma PrintIdentity(c: Credentials)
    ensures PrintFields(IdentityFields(c))
            == PrintField(Field("username", c.user, true)) + ", " + PrintField(Field("realm", c.realm, true)) + ", " +
               PrintField(Field("nonce", c.nonce, true)) + ", " + PrintField(Field("uri", c.path, true))
  {
    hide PrintFields, PrintField;
    var u, r, n, p := Field("username", c.user, true), Field("realm", c.realm, true), Field("nonce", c.nonce, true), Field("uri", c.path, true);
    PrintOne(u);
    PrintMore([u], r);
    PrintMore([u] + [r], n);
    PrintMore([u] + [r] + [n], p);
    assert IdentityFields(c) == [u] + [r] + [n] + [p];
  }

  lemma PrintOne(f: Field)
    ensures PrintFields([f]) == PrintField(f)
  {
  }

  /** One more field is printed behind a comma. */
  lemma {:induction false} PrintMore(fs: seq<Field>, f: Field)
    requires fs != []
    ensures PrintFields(fs + [f]) == PrintFields(fs) + (", " + PrintField(f))
  {
    hide PrintField;
    var all := fs + [f];
    if |fs| == 1 {
      assert all[1..] == [f];
      PrintOne(f);
    } else {
      assert all[1..] == fs[1..] + [f];
      PrintMore(fs[1..], f);
      assert PrintField(fs[0]) + ", " + (PrintFields(fs[1..]) + (", " + PrintField(f)))
          == PrintField(fs[0]) + ", " + PrintFields(fs[1..]) + (", " + PrintField(f));
    }
  }
}
