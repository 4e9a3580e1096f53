/** The loops of config/makedepend/ifparser.c that move a pointer through the text, proved against
    the scanning functions of IfParser. A pointer is an index; the text ends with a NUL that is not
    part of it. */
module IfScanner {
  import opened Names
  import opened IfParser

  // SKIPSPACE
  method SkipSpaces(text: string, cp: nat) returns (p: nat)
    requires cp <= |text|
    ensures cp <= p <= |text| && text[p..] == SkipSpace(text[cp..])
  {
    p := cp;
    while IsSpace(At(text, p))
      invariant cp <= p <= |text|
      invariant SkipSpace(text[p..]) == SkipSpace(text[cp..])
      decreases |text| - p
    {
      assert p < |text| && text[p..][1..] == text[p + 1..];
      p := p + 1;
    }
    assert p < |text| ==> text[p..][0] == text[p];
  }

  // The for loop of parse_variable.
  method ScanWord(text: string, cp: nat) returns (p: nat)
    requires cp <= |text|
    ensures cp <= p <= |text| && text[cp..p] == Word(text[cp..])
  {
    p := cp;
    while IsVarLetter(At(text, p))
      invariant cp <= p <= |text|
      invariant |Word(text[cp..])| == p - cp + |Word(text[p..])|
      decreases |text| - p
    {
      assert p < |text| && text[p..][1..] == text[p + 1..];
      p := p + 1;
    }
    assert p < |text| ==> text[p..][0] == text[p];
    ghost var word := Word(text[cp..]);
    assert word == (word + text[cp..][|word|..])[..|word|] == text[cp..][..|word|] == text[cp..p];
  }

  // parse_variable: the start of the name and the pointer behind it, or NULL.
  method ScanVariable(text: string, cp: nat) returns (ok: bool, variable: nat, p: nat)
    requires cp <= |text|
    ensures ok ==> cp <= variable < p <= |text|
    ensures ParseVariable(text[cp..]) == if ok then Done(text[p..], text[variable..p]) else Failed
  {
    p := SkipSpaces(text, cp);
    variable := p;
    ok := IsVarFirstLetter(At(text, p));
    ghost var at := text[p..];
    assert p < |text| ==> at[0] == text[p];
    if ok {
      p := ScanWord(text, p + 1);
      assert at[1..] == text[variable + 1..];
      assert [at[0]] + Word(at[1..]) == text[variable..p];
      assert at[p - variable..] == text[p..];
    }
  }

  // parse_number, where strtol reads NumberLength characters.
  method ScanNumber(text: string, cp: nat) returns (p: nat)
    requires cp < |text| && IsDigit(text[cp])
    ensures cp < p <= |text|
    ensures text[p..] == SkipQualifiers(text[cp..][NumberLength(text[cp..])..])
  {
    p := cp + NumberLength(text[cp..]);
    ghost var literal := p;
    assert text[cp..][literal - cp..] == text[literal..];
    while IsQualifier(At(text, p))
      invariant literal <= p <= |text|
      invariant SkipQualifiers(text[p..]) == SkipQualifiers(text[literal..])
      decreases |text| - p
    {
      assert p < |text| && text[p..][1..] == text[p + 1..];
      p := p + 1;
    }
    assert p < |text| ==> text[p..][0] == text[p];
  }

  // The do-while loop of the case '#': the pointer to the closing parenthesis, or NULL.
  method ScanList(text: string, open: nat) returns (ok: bool, p: nat)
    requires open < |text|
    ensures ok ==> open < p < |text|
    ensures ParseList(text[open..]) == if ok then Some(text[p..]) else None
  {
    p := open;
    while true
      invariant open <= p < |text|
      invariant ParseList(text[p..]) == ParseList(text[open..])
      decreases |text| - p
    {
      ghost var before := p;
      assert text[before..][1..] == text[before + 1..];
      var named, _, behind := ScanVariable(text, p + 1);
      if !named { return false, p; }
      p := SkipSpaces(text, behind);
      if p == |text| { return false, p; }
      assert text[p..][0] == text[p];
      if text[p] == ')' { return true, p; }
    }
  }
}
