/** Texts made of parts with a separator between them. */
module Texts {

  function Split(s: string, sep: char): (r: seq<string>)
    ensures r != []
  {
    if s == "" then [""]
    else
      var r := Split(s[1..], sep);
      if s[0] == sep then [""] + r else [[s[0]] + r[0]] + r[1..]
  }

  lemma {:induction false} SplitOne(s: string, sep: char)
    requires sep !in s
    ensures Split(s, sep) == [s]
  {
    if s != "" {
      SplitOne(s[1..], sep);
      assert s == [s[0]] + s[1..];
    }
  }

  lemma {:induction false} SplitAppend(a: string, sep: char, t: string)
    requires sep !in t
    ensures Split(a + [sep] + t, sep) == Split(a, sep) + [t]
  {
    if a == "" {
      SplitOne(t, sep);
      assert (a + [sep] + t)[1..] == t;
    } else {
      SplitAppend(a[1..], sep, t);
      assert (a + [sep] + t)[1..] == a[1..] + [sep] + t;
    }
  }
}
