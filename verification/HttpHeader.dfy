/** QHttpResponseHeader and QHttpHeader (qhttp.cpp). */
module HttpHeader {
  import opened HttpHeaderModel

  class QHttpResponseHeader {
    var valid: bool
    var majVer: int
    var minVer: int
    var statCode: int
    var reasonPhr: string
    var values: seq<Field>

    function Abs(): Header
      reads this
    {
      Header(valid, majVer, minVer, statCode, reasonPhr, values)
    }

    /** The header that a text stands for. */
    constructor (str: string)
      ensures Abs() == HttpHeaderModel.Parse(str)
    {
      valid, majVer, minVer, statCode, reasonPhr, values := true, 0, 0, 0, "", [];
      new;
      var ok := Parse(str);
    }

    method AddValue(key: string, value: string)
      modifies this`values
      ensures values == old(values) + [(key, value)]
    {
      values := values + [(key, value)];
    }

    /** QHttpHeader::parseLine; what it says is no field leaves the header as it is. */
    method ParseFieldLine(line: string) returns (ok: bool)
      modifies this`values
      ensures (if ok then Abs() else Abs().(valid := false)) == ParseField(old(Abs()), line)
      ensures ok <==> IndexOf(line, ':', 0) != -1
    {
      var i := IndexOf(line, ':', 0);
      if i == -1 {
        return false;
      }
      AddValue(Trimmed(line[..i]), Trimmed(line[i + 1..]));
      return true;
    }

    method ParseStatusLine(line: string) returns (ok: bool)
      modifies this`majVer, this`minVer, this`statCode, this`reasonPhr
      ensures (if ok then Abs() else Abs().(valid := false)) == ParseStatus(old(Abs()), line)
    {
      hide Collapse, ToInt;
      var l := Simplified(line);
      if |l| < 10 {
        return false;
      }
      if l[..5] == "HTTP/" && IsDigit(l[5]) && l[6] == '.' && IsDigit(l[7]) && l[8] == ' ' && IsDigit(l[9]) {
        majVer := DigitValue(l[5]);
        minVer := DigitValue(l[7]);
        var pos := IndexOf(l, ' ', 9);
        if pos != -1 {
          reasonPhr := l[pos + 1..];
          statCode := ToInt(l[9..pos]);
        } else {
          statCode := ToInt(l[9..]);
          reasonPhr := "";
        }
        return true;
      }
      return false;
    }

    /** The lines of a text, without empty ones. */
    static method SplitLines(str: string) returns (lst: seq<string>)
      ensures lst == RawLines(str)
    {
      var pos := IndexOf(str, '\n', 0);
      if pos > 0 && str[pos - 1] == '\r' {
        lst := SplitCrLf(Trimmed(str), "");
      } else {
        lst := SplitLf(Trimmed(str), "");
      }
      lst := RemoveEmpty(lst);
    }

    /** Joins the lines that continue a line with it. */
    static method JoinLines(lst: seq<string>) returns (lines: seq<string>)
      ensures lines == Unfold(lst, [])
    {
      hide Trimmed, IsSpace;
      lines := [];
      for k := 0 to |lst|
        invariant Unfold(lst[k..], lines) == Unfold(lst, [])
      {
        assert lst[k..][1..] == lst[k + 1..];
        if lst[k] != "" && IsSpace(lst[k][0]) {
          if lines != [] {
            lines := lines[|lines| - 1 := lines[|lines| - 1] + " " + Trimmed(lst[k])];
          }
        } else {
          lines := lines + [lst[k]];
        }
      }
    }

    /** parse; if a line cannot be read, the header is not valid and keeps what was read before. */
    method Parse(str: string) returns (ok: bool)
      requires valid
      modifies this
      ensures Abs() == ParseLines(old(Abs()), Unfold(RawLines(str), [])) && ok == valid
    {
      hide ParseStatus, ParseField, Unfold;
      var lst := SplitLines(str);
      var lines := JoinLines(lst);
      if lines == [] {
        return true;
      }
      StatusMayFail(Abs(), lines[0]);
      ok := ParseStatusLine(lines[0]);
      if !ok {
        valid := false;
        return;
      }
      ok := ParseFieldLines(lines[1..]);
    }

    /** The loop over the lines behind the first one. */
    method ParseFieldLines(lines: seq<string>) returns (ok: bool)
      requires valid
      modifies this`values, this`valid
      ensures Abs() == ParseFields(old(Abs()), lines) && ok == valid
    {
      hide ParseField;
      for k := 0 to |lines|
        invariant valid && ParseFields(Abs(), lines[k..]) == ParseFields(old(Abs()), lines)
      {
        assert lines[k..][0] == lines[k] && lines[k..][1..] == lines[k + 1..];
        FieldMayFail(Abs(), lines[k]);
        ok := ParseFieldLine(lines[k]);
        if !ok {
          valid := false;
          return;
        }
      }
      return true;
    }

    /** QHttpHeader::toString: the field lines, or nothing if the header is not valid. */
    method FieldsToString() returns (ret: string)
      ensures ret == if valid then PrintFields(values) else ""
    {
      hide FieldLine;
      ret := "";
      if !valid {
        return;
      }
      for k := 0 to |values|
        invariant ret + PrintFields(values[k..]) == PrintFields(values)
      {
        assert values[k..][1..] == values[k + 1..];
        assert ret + (FieldLine(values[k]) + CR_LF + PrintFields(values[k + 1..]))
            == ret + (FieldLine(values[k]) + CR_LF) + PrintFields(values[k + 1..]);
        ret := ret + (FieldLine(values[k]) + CR_LF);
      }
      assert values[|values|..] == [] && ret == PrintFields(values);
    }

    /** QHttpResponseHeader::toString. */
    method ToString() returns (ret: string)
      requires '%' !in reasonPhr
      ensures ret == if valid then Print(Abs()) else StatusLine(Abs()) + CR_LF + CR_LF
    {
      hide StatusLine;
      var fields := FieldsToString();
      ret := StatusLine(Abs()) + CR_LF + fields + CR_LF;
    }
  }

  lemma StatusMayFail(h: Header, line: string)
    requires h.valid
    ensures ParseStatus(h, line).valid || ParseStatus(h, line) == h.(valid := false)
  {
    hide Simplified, ToInt;
  }

  lemma FieldMayFail(h: Header, line: string)
    requires h.valid
    ensures ParseField(h, line).valid <==> IndexOf(line, ':', 0) != -1
    ensures ParseField(h, line).valid || ParseField(h, line) == h.(valid := false)
  {
  }
}
