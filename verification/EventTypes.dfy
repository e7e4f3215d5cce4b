/** The texts that name event types, and how they are split into words. */
module EventTypes {

  type EventType = string

  /** A character that `\s` stands for in a regular expression, and that trimming takes. */
  predicate IsBlank(c: char) {
    var code := c as int;
    || 9 <= code <= 13 || code == 32 || code == 0xa0 || code == 0x1680 || 0x2000 <= code <= 0x200a
    || code == 0x2028 || code == 0x2029 || code == 0x202f || code == 0x205f || code == 0x3000 || code == 0xfeff
  }

  predicate IsWord(t: EventType) {
    forall i :: 0 <= i < |t| ==> !IsBlank(t[i])
  }

  /** Where the first word ends. */
  function WordEnd(t: string): (n: nat)
    ensures n <= |t| && IsWord(t[..n]) && (n < |t| ==> IsBlank(t[n]))
  {
    if t == "" || IsBlank(t[0]) then 0 else 1 + WordEnd(t[1..])
  }

  function WordsIn(t: string): (words: seq<EventType>)
    ensures forall w :: w in words ==> IsWord(w)
    decreases |t|
  {
    if t == "" then []
    else if IsBlank(t[0]) then WordsIn(t[1..])
    else var n := WordEnd(t); [t[..n]] + WordsIn(t[n..])
  }

  /** `trim` and then `split(/\s+/)`: the words of a text, and the empty one for a text that has none. */
  function Words(t: EventType): (words: seq<EventType>)
    ensures forall w :: w in words ==> IsWord(w)
  {
    var words := WordsIn(t);
    if words == [] then [""] else words
  }

  /** A single word is not split, and no other text is one of its words. */
  lemma WordsOfWord(t: EventType)
    ensures IsWord(t) ==> Words(t) == [t]
    ensures !IsWord(t) ==> t !in Words(t)
  {
    if IsWord(t) && t != "" {
      assert WordEnd(t) == |t|;
      assert t[..|t|] == t && WordsIn(t[|t|..]) == [];
    }
  }

  /** A blank divides a text: the words are those before it and those behind it. */
  lemma {:induction false} WordsAroundBlank(front: string, blank: char, back: string)
    requires IsBlank(blank)
    ensures WordsIn(front + [blank] + back) == WordsIn(front) + WordsIn(back)
    decreases |front|
  {
    hide WordsIn, WordEnd, IsBlank, IsWord;
    var t := front + [blank] + back;
    WordsStep(front);
    WordsStep(t);
    if front == "" {
      assert t[1..] == back && t[0] == blank;
    } else if IsBlank(front[0]) {
      assert t[1..] == front[1..] + [blank] + back && t[0] == front[0];
      WordsAroundBlank(front[1..], blank, back);
    } else {
      var n := WordEnd(front);
      EndBeforeBlank(front, [blank] + back);
      assert t == front + ([blank] + back) && t[0] == front[0];
      assert t[..n] == front[..n] && t[n..] == front[n..] + [blank] + back;
      WordsAroundBlank(front[n..], blank, back);
    }
  }

  lemma WordsStep(t: string)
    ensures t == "" ==> WordsIn(t) == []
    ensures t != "" && IsBlank(t[0]) ==> WordsIn(t) == WordsIn(t[1..])
    ensures t != "" && !IsBlank(t[0]) ==>
              var n := WordEnd(t); 0 < n <= |t| && WordsIn(t) == [t[..n]] + WordsIn(t[n..])
  {
    hide IsBlank;
  }

  lemma {:induction false} EndBeforeBlank(front: string, back: string)
    requires back != "" && IsBlank(back[0])
    ensures WordEnd(front + back) == WordEnd(front)
  {
    if front != "" {
      assert (front + back)[0] == front[0] && (front + back)[1..] == front[1..] + back;
      EndBeforeBlank(front[1..], back);
    }
  }

  /** A text of one word has that word, a text of no word the empty one. */
  lemma WordsOfSome(t: string)
    ensures IsWord(t) && t != "" ==> WordsIn(t) == [t]
    ensures WordsIn("") == [] && Words(t) == if WordsIn(t) == [] then [""] else WordsIn(t)
  {
    WordsOfWord(t);
  }

  lemma SomeBlanks()
    ensures IsBlank(' ') && IsBlank('\t') && IsBlank('\n') && IsBlank('\r')
    ensures forall c :: '!' <= c <= '~' ==> !IsBlank(c)
  {
  }
}
