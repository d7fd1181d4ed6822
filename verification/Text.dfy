/** Text functions shared by the protocols. */
module Text {

  /** Index of the first `c`, or the length of the text: `find`. */
  function IndexOf(s: string, c: char): (i: nat)
    ensures i <= |s| && (forall j :: 0 <= j < i ==> s[j] != c) && (i < |s| ==> s[i] == c)
  {
    if s == "" || s[0] == c then 0 else 1 + IndexOf(s[1..], c)
  }

  /** White space of the C locale. */
  predicate Blank(c: char) {
    c == ' ' || '\t' <= c <= '\r'
  }

  /** The six characters of it. */
  lemma {:induction false} BlankIs(c: char)
    ensures Blank(c) <==> c in " \t\n\r" || c as int == 11 || c as int == 12
  {
  }

  /** The text without leading white space. */
  function LStrip(s: string): string {
    if s != "" && Blank(s[0]) then LStrip(s[1..]) else s
  }

  /** Length of the first word, if the text starts with one. */
  function WordLength(s: string): (k: nat)
    ensures k <= |s| && (forall i :: 0 <= i < k ==> !Blank(s[i])) && (k < |s| ==> Blank(s[k]))
  {
    if s == "" || Blank(s[0]) then 0 else 1 + WordLength(s[1..])
  }

  /** The words of a text: `iss >> word`, and `split()`. */
  function Words(s: string): seq<string>
    decreases |s|
  {
    if s == "" then []
    else if Blank(s[0]) then Words(s[1..])
    else [s[..WordLength(s)]] + Words(s[WordLength(s)..])
  }

  lemma {:induction false} WordLengthOf(w: string, rest: string)
    requires forall i :: 0 <= i < |w| ==> !Blank(w[i])
    requires rest != "" ==> Blank(rest[0])
    ensures WordLength(w + rest) == |w|
  {
    var s := w + rest;
    assert forall i :: 0 <= i < |w| ==> s[i] == w[i];
    assert rest != "" ==> s[|w|] == rest[0];
  }

  lemma {:induction false} SplitWord(a: string, b: string, k: nat)
    requires k <= |a|
    ensures (a + b)[..k] == a[..k] && (a + b)[k..] == a[k..] + b && a + b == a[..k] + (a[k..] + b)
  {
  }

  lemma {:induction false} WordsOfWord(w: string, rest: string)
    requires w != "" && forall i :: 0 <= i < |w| ==> !Blank(w[i])
    requires rest != "" ==> Blank(rest[0])
    ensures Words(w + rest) == [w] + Words(rest)
  {
    WordLengthOf(w, rest);
    SplitWord(w, rest, |w|);
    assert w[..|w|] == w && w[|w|..] + rest == rest;
  }

  lemma {:induction false} JoinWords(w: string, a: seq<string>, b: seq<string>)
    ensures [w] + (a + b) == [w] + a + b
  {
  }

  /** Words of a text that goes on with a blank. */
  lemma {:induction false} WordsAppend(a: string, b: string)
    requires b != "" ==> Blank(b[0])
    ensures Words(a + b) == Words(a) + Words(b)
    decreases |a|
  {
    if a == "" {
      assert a + b == b;
    } else if Blank(a[0]) {
      WordsAppend(a[1..], b);
      assert (a + b)[1..] == a[1..] + b;
    } else {
      var k := WordLength(a);
      var w, more := a[..k], a[k..];
      assert w[0] == a[0];
      SplitWord(a, b, k);
      WordsOfWord(w, more + b);
      WordsAppend(more, b);
      JoinWords(w, Words(more), Words(b));
    }
  }

  lemma {:induction false} LeadingBlank(s: string)
    ensures Words(" " + s) == Words(s)
  {
    assert (" " + s)[1..] == s;
  }

  /** A word behind text that ends in a blank. */
  lemma {:induction false} WordBehind(a: string, w: string)
    requires w != "" && forall i :: 0 <= i < |w| ==> !Blank(w[i])
    ensures Words(a + (" " + w)) == Words(a) + [w] && Words(w) == [w]
  {
    WordsAppend(a, " " + w);
    LeadingBlank(w);
    WordsOfWord(w, "");
    assert w + "" == w && [w] + [] == [w];
  }

  predicate AllBlank(s: string) {
    forall i :: 0 <= i < |s| ==> Blank(s[i])
  }

  lemma {:induction false} WordsOfBlanks(s: string)
    requires AllBlank(s)
    ensures Words(s) == []
    decreases |s|
  {
    if s != "" { WordsOfBlanks(s[1..]); }
  }

  /** A text that ends in a blank, and what follows it. */
  lemma {:induction false} WordsAfterBlank(a: string, b: string)
    requires a != "" ==> Blank(a[|a| - 1])
    ensures Words(a + b) == Words(a) + Words(b)
  {
    if a == "" {
      assert a + b == b;
    } else {
      var init, last := a[..|a| - 1], [a[|a| - 1]];
      WordsAppend(init, last + b);
      WordsAppend(init, last);
      WordsOfBlanks(last);
      assert (last + b)[1..] == b && a + b == init + (last + b) && a == init + last;
    }
  }

  lemma {:induction false} WordsOfOne(w: string)
    requires w != "" && forall i :: 0 <= i < |w| ==> !Blank(w[i])
    ensures Words(w) == [w]
  {
    WordsOfWord(w, "");
    assert w + "" == w && [w] + [] == [w];
  }
}
