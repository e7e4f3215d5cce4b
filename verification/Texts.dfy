/** Byte strings, searched and split as Go's `strings` and `bytes` packages do. */
module Texts {
  import opened Base64

  type Text = seq<Byte>

  const COLON: Byte := 58

  /** Where a byte first stands, or the length of the text. */
  function IndexOf(text: Text, code: Byte): (i: nat)
    ensures i <= |text| && (i < |text| <==> code in text)
    ensures forall k :: 0 <= k < i ==> text[k] != code
    ensures i < |text| ==> text[i] == code
  {
    if text == [] || text[0] == code then 0 else 1 + IndexOf(text[1..], code)
  }

  /** Where a separator first stands, or the length of the text. */
  function Find(text: Text, sep: Text): (i: nat)
    ensures i <= |text|
  {
    if text == [] || sep <= text then 0 else 1 + Find(text[1..], sep)
  }

  function Split(text: Text, sep: Text): (parts: seq<Text>)
    requires sep != []
    ensures parts != []
    decreases |text|
  {
    var i := Find(text, sep);
    if i + |sep| > |text| then [text] else [text[..i]] + Split(text[i + |sep|..], sep)
  }

  lemma {:induction false} FindByte(front: Text, code: Byte, back: Text)
    requires code !in front
    ensures Find(front + [code] + back, [code]) == |front|
  {
    var text := front + [code] + back;
    if front != [] {
      assert text[1..] == front[1..] + [code] + back;
      assert text[0] == front[0];
      FindByte(front[1..], code, back);
    }
  }

  lemma SplitAtByte(front: Text, code: Byte, back: Text)
    requires code !in front
    ensures Split(front + [code] + back, [code]) == [front] + Split(back, [code])
  {
    hide Find;
    var text := front + [code] + back;
    FindByte(front, code, back);
    assert text[..|front|] == front && text[|front| + 1..] == back;
  }

  lemma {:induction false} NoSeparator(text: Text, code: Byte, sep: Text)
    requires code in sep && code !in text
    ensures Find(text, sep) == |text|
  {
    if text != [] {
      var k :| 0 <= k < |sep| && sep[k] == code;
      assert k < |text| ==> text[k] != sep[k];
      NoSeparator(text[1..], code, sep);
    }
  }

  lemma SplitWhole(text: Text, code: Byte)
    requires code !in text
    ensures Split(text, [code]) == [text]
  {
    NoSeparator(text, code, [code]);
  }

  lemma {:induction false} FoundByte(text: Text, code: Byte)
    ensures Find(text, [code]) == IndexOf(text, code)
  {
    if text != [] {
      FoundByte(text[1..], code);
    }
  }

  lemma SplitOfMore(text: Text, code: Byte)
    ensures code in text ==> |Split(text, [code])| >= 2
  {
    hide Find, IndexOf;
    FoundByte(text, code);
  }

  /** What splits into two parts is those two around the only separator. */
  lemma SplitOfTwo(text: Text, code: Byte)
    requires |Split(text, [code])| == 2
    ensures var parts := Split(text, [code]);
            text == parts[0] + [code] + parts[1] && code !in parts[0] && code !in parts[1]
  {
    hide Find, IndexOf;
    FoundByte(text, code);
    var i := IndexOf(text, code);
    if i < |text| {
      var back := text[i + 1..];
      assert text == text[..i] + [code] + back;
      SplitOfMore(back, code);
    }
  }
}
