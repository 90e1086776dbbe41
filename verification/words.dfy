/**
 Python's `str.split()` with no separator: the input is cut at runs of
 whitespace and empty pieces are dropped.
 */
module Words {

  /** The characters for which Python's `str.isspace()` holds. */
  predicate IsSpace(c: char)
  {
    || c == ' ' || c == '\t' || c == '\n' || c == '\r'
    || c == '\U{0B}' || c == '\U{0C}'
    || ('\U{1C}' <= c <= '\U{1F}')
    || c == '\U{85}' || c == '\U{A0}' || c == '\U{1680}'
    || ('\U{2000}' <= c <= '\U{200A}')
    || c == '\U{2028}' || c == '\U{2029}' || c == '\U{202F}' || c == '\U{205F}' || c == '\U{3000}'
  }

  /** A piece of `split()` output: non-empty and free of whitespace. */
  predicate IsWord(w: string)
  {
    |w| > 0 && forall i :: 0 <= i < |w| ==> !IsSpace(w[i])
  }

  /** The non-whitespace characters of `s`, in order. */
  function NonSpace(s: string): string
    decreases |s|
  {
    if |s| == 0 then "" else (if IsSpace(s[0]) then "" else [s[0]]) + NonSpace(s[1..])
  }

  function Concat(ws: seq<string>): string
    decreases |ws|
  {
    if |ws| == 0 then "" else ws[0] + Concat(ws[1..])
  }

  /** `" ".join(ws)`. */
  function Join(ws: seq<string>): string
    decreases |ws|
  {
    if |ws| == 0 then ""
    else if |ws| == 1 then ws[0]
    else ws[0] + " " + Join(ws[1..])
  }

  /** Length of the leading run of non-whitespace characters. */
  function WordLen(s: string): (n: nat)
    ensures n <= |s|
    ensures forall i :: 0 <= i < n ==> !IsSpace(s[i])
    ensures n < |s| ==> IsSpace(s[n])
    decreases |s|
  {
    if |s| == 0 || IsSpace(s[0]) then 0 else 1 + WordLen(s[1..])
  }

  /** `s.split()`. */
  function Split(s: string): (ws: seq<string>)
    ensures forall w :: w in ws ==> IsWord(w)
    ensures Concat(ws) == NonSpace(s)
    decreases |s|
  {
    if |s| == 0 then []
    else if IsSpace(s[0]) then
      assert NonSpace(s) == NonSpace(s[1..]);
      Split(s[1..])
    else
      var n := WordLen(s);
      var rest := Split(s[n..]);
      NonSpaceAppend(s[..n], s[n..]);
      NonSpaceOfWord(s[..n]);
      assert s[..n] + s[n..] == s;
      [s[..n]] + rest
  }

  lemma {:induction false} NonSpaceAppend(a: string, b: string)
    ensures NonSpace(a + b) == NonSpace(a) + NonSpace(b)
    decreases |a|
  {
    if |a| > 0 {
      assert (a + b)[1..] == a[1..] + b;
      NonSpaceAppend(a[1..], b);
    } else {
      assert a + b == b;
    }
  }

  lemma {:induction false} NonSpaceOfWord(w: string)
    requires forall i :: 0 <= i < |w| ==> !IsSpace(w[i])
    ensures NonSpace(w) == w
    decreases |w|
  {
    if |w| > 0 {
      NonSpaceOfWord(w[1..]);
    }
  }

  /** A word followed by whitespace or by nothing is read whole. */
  lemma {:induction false} WordLenOfWord(w: string, t: string)
    requires IsWord(w)
    requires |t| == 0 || IsSpace(t[0])
    ensures WordLen(w + t) == |w|
    decreases |w|
  {
    if |w| > 1 {
      assert (w + t)[1..] == w[1..] + t;
      WordLenOfWord(w[1..], t);
    } else {
      assert (w + t)[1..] == t;
    }
  }

  /** Splitting words joined by single spaces gives the words back. */
  lemma {:induction false} SplitJoin(ws: seq<string>)
    requires forall w :: w in ws ==> IsWord(w)
    ensures Split(Join(ws)) == ws
    decreases |ws|
  {
    if |ws| == 1 {
      WordLenOfWord(ws[0], "");
      assert ws[0] + "" == ws[0];
      assert ws[0][|ws[0]|..] == "";
    } else if |ws| > 1 {
      var w := ws[0];
      var rest := Join(ws[1..]);
      var s := w + " " + rest;
      assert s == w + (" " + rest);
      WordLenOfWord(w, " " + rest);
      assert s[..|w|] == w;
      assert s[|w|..] == " " + rest;
      assert (" " + rest)[1..] == rest;
      SplitJoin(ws[1..]);
      assert ws == [w] + ws[1..];
    }
  }

  /** A single word splits into itself. */
  lemma SplitWord(w: string)
    requires IsWord(w)
    ensures Split(w) == [w]
  {
    SplitJoin([w]);
  }

  /** A text made only of whitespace splits into nothing. */
  lemma {:induction false} SplitAllSpace(s: string)
    requires forall i :: 0 <= i < |s| ==> IsSpace(s[i])
    ensures Split(s) == []
    decreases |s|
  {
    if |s| > 0 {
      SplitAllSpace(s[1..]);
    }
  }

  /**
   Every whitespace character is a break: the pieces of `a + [c] + b` are
   the pieces of `a` followed by the pieces of `b`. With `SplitWord` and
   `SplitAllSpace` this fixes `Split` on every input.
   */
  lemma {:induction false} SplitAtSpace(a: string, c: char, b: string)
    requires IsSpace(c)
    ensures Split(a + [c] + b) == Split(a) + Split(b)
    decreases |a|
  {
    var s := a + [c] + b;
    if |a| == 0 {
      assert s[1..] == b;
    } else if IsSpace(a[0]) {
      assert s[1..] == a[1..] + [c] + b;
      SplitAtSpace(a[1..], c, b);
    } else {
      var m := WordLen(a);
      if m < |a| {
        WordLenPrefix(a, [c] + b);
        assert s == a + ([c] + b);
        assert s[..m] == a[..m];
        assert s[m..] == a[m..] + [c] + b;
        SplitAtSpace(a[m..], c, b);
      } else {
        assert IsWord(a);
        WordLenOfWord(a, [c] + b);
        assert s == a + ([c] + b);
        assert s[..m] == a;
        assert s[m..] == [c] + b;
        assert ([c] + b)[1..] == b;
        assert a[..m] == a && a[m..] == [];
      }
    }
  }

  /** A word run that ends inside `x` ends there in `x + y` too. */
  lemma {:induction false} WordLenPrefix(x: string, y: string)
    requires WordLen(x) < |x|
    ensures WordLen(x + y) == WordLen(x)
    decreases |x|
  {
    if !IsSpace(x[0]) {
      assert (x + y)[1..] == x[1..] + y;
      WordLenPrefix(x[1..], y);
    }
  }

  /** The example of tagging a photo with "sunset beach". */
  lemma SplitSunsetBeach()
    ensures Split("sunset beach") == ["sunset", "beach"]
  {
    var ws := ["sunset", "beach"];
    assert IsWord("sunset") && IsWord("beach");
    assert Join(ws) == "sunset beach";
    SplitJoin(ws);
  }
}
