/**
 * Text normaliser and tokeniser of the spam filter: the string pipeline that
 * turns a raw email into its normalised body text and its set of words
 * (src/spamFilter.js:32-57).
 */
module Text {

  /** JavaScript `s.split(sep)` for a one-character separator: always at
      least one piece, and an empty piece between adjacent separators. */
  function Split(s: string, sep: char): (parts: seq<string>)
    ensures |parts| >= 1
    decreases |s|
  {
    if |s| == 0 then [""]
    else
      var rest := Split(s[1..], sep);
      if s[0] == sep then [""] + rest
      else [[s[0]] + rest[0]] + rest[1..]
  }

  /** JavaScript `parts.join(sep)`: the pieces in order with `sep` between neighbours, so the
      result starts with the first piece and holds only characters of the pieces and of `sep`. */
  function Join(parts: seq<string>, sep: string): (r: string)
    ensures |parts| > 0 ==> parts[0] <= r
    ensures forall c :: c in r && c !in sep ==> exists k :: 0 <= k < |parts| && c in parts[k]
  {
    if |parts| == 0 then ""
    else if |parts| == 1 then parts[0]
    else parts[0] + sep + Join(parts[1..], sep)
  }

  /** Joining the pieces of a split with the same separator gives back the text. */
  lemma {:induction false} JoinSplit(s: string, sep: char)
    ensures Join(Split(s, sep), [sep]) == s
    decreases |s|
  {
    if |s| > 0 {
      var rest := Split(s[1..], sep);
      JoinSplit(s[1..], sep);
      if s[0] == sep {
        assert ([""] + rest)[1..] == rest;
      } else {
        var parts := [[s[0]] + rest[0]] + rest[1..];
        if |rest| > 1 {
          assert parts[1..] == rest[1..];
          assert s == [s[0]] + s[1..];
        }
      }
    }
  }

  /** Every piece of a split is free of the separator, and its characters come from the text. */
  lemma {:induction false} SplitPieces(s: string, sep: char)
    ensures forall k :: 0 <= k < |Split(s, sep)| ==>
              forall c :: c in Split(s, sep)[k] ==> c != sep && c in s
    decreases |s|
  {
    if |s| > 0 {
      SplitPieces(s[1..], sep);
      var rest := Split(s[1..], sep);
      forall k | 0 <= k < |Split(s, sep)|
        ensures forall c :: c in Split(s, sep)[k] ==> c != sep && c in s
      {
        forall c | c in Split(s, sep)[k]
          ensures c != sep && c in s
        {
          if s[0] == sep {
            assert Split(s, sep)[k] == ([""] + rest)[k];
            assert k > 0 && Split(s, sep)[k] == rest[k - 1];
            assert c in s[1..];
          } else if k == 0 {
            assert Split(s, sep)[0] == [s[0]] + rest[0];
            if c != s[0] {
              assert c in rest[0];
              assert c in s[1..];
            }
          } else {
            assert Split(s, sep)[k] == rest[k];
            assert c in s[1..];
          }
        }
      }
    }
  }

  /** Splitting text free of the separator gives the text as the only piece. */
  lemma {:induction false} SplitFree(a: string, sep: char)
    requires sep !in a
    ensures Split(a, sep) == [a]
    decreases |a|
  {
    if |a| > 0 {
      assert sep !in a[1..];
      SplitFree(a[1..], sep);
      assert a == [a[0]] + a[1..];
    }
  }

  /** A separator after a separator-free prefix starts a new piece. */
  lemma {:induction false} SplitAfterFree(a: string, sep: char, b: string)
    requires sep !in a
    ensures Split(a + [sep] + b, sep) == [a] + Split(b, sep)
    decreases |a|
  {
    if |a| == 0 {
      assert a + [sep] + b == [sep] + b;
      assert ([sep] + b)[1..] == b;
    } else {
      assert sep !in a[1..];
      SplitAfterFree(a[1..], sep, b);
      assert (a + [sep] + b)[1..] == a[1..] + [sep] + b;
      assert a == [a[0]] + a[1..];
    }
  }

  /** Splitting a join of separator-free pieces gives back the pieces. */
  lemma {:induction false} SplitJoin(parts: seq<string>, sep: char)
    requires |parts| >= 1
    requires forall k :: 0 <= k < |parts| ==> sep !in parts[k]
    ensures Split(Join(parts, [sep]), sep) == parts
    decreases |parts|
  {
    if |parts| == 1 {
      SplitFree(parts[0], sep);
    } else {
      SplitJoin(parts[1..], sep);
      SplitAfterFree(parts[0], sep, Join(parts[1..], [sep]));
      assert [parts[0]] + parts[1..] == parts;
    }
  }

  /** The three header lines are dropped with `shift()`, which does nothing on an empty array. */
  function DropHeaderLines(lines: seq<string>): (rest: seq<string>)
    ensures |lines| >= 3 ==> lines[..3] + rest == lines
    ensures |lines| < 3 ==> rest == []
  {
    if |lines| < 3 then [] else lines[3..]
  }

  /** Step 1: the lines after the first three, joined with single spaces: no line break is
      left, and every other character comes from the text. */
  function StripHeader(text: string): (r: string)
    ensures forall c :: c in r ==> c == ' ' || (c != '\n' && c in text)
  {
    var lines := Split(text, '\n');
    var rest := DropHeaderLines(lines);
    var r := Join(rest, " ");
    assert forall c :: c in r ==> c == ' ' || (c != '\n' && c in text) by {
      SplitPieces(text, '\n');
      forall c | c in r && c != ' ' ensures c != '\n' && c in text {
        var k :| 0 <= k < |rest| && c in rest[k];
        assert rest[k] == lines[k + 3];
      }
    }
    r
  }

  /** After three header lines, the body's lines are kept in order and joined with single
      spaces, whatever they hold. */
  lemma StripHeaderKeepsBody(h1: string, h2: string, h3: string, body: string)
    requires '\n' !in h1 && '\n' !in h2 && '\n' !in h3
    ensures StripHeader(h1 + "\n" + h2 + "\n" + h3 + "\n" + body) == Join(Split(body, '\n'), " ")
  {
    var t3 := h3 + ['\n'] + body;
    var t2 := h2 + ['\n'] + t3;
    assert h1 + "\n" + h2 + "\n" + h3 + "\n" + body == h1 + ['\n'] + t2;
    SplitAfterFree(h3, '\n', body);
    SplitAfterFree(h2, '\n', t3);
    SplitAfterFree(h1, '\n', t2);
    var lines := Split(h1 + ['\n'] + t2, '\n');
    assert lines == [h1] + ([h2] + ([h3] + Split(body, '\n')));
    assert DropHeaderLines(lines) == Split(body, '\n');
  }

  /** ASCII letter or digit: the characters `[A-Za-z0-9]` keeps. */
  predicate IsAlnum(c: char)
  {
    ('A' <= c <= 'Z') || ('a' <= c <= 'z') || ('0' <= c <= '9')
  }

  /** The characters matched by the regular-expression class `\s`. */
  predicate IsWhitespace(c: char)
  {
    c == ' ' || c == '\t' || c == '\n' || c == '\r' || c == '\U{000B}' || c == '\U{000C}'
    || c == '\U{00A0}' || c == '\U{1680}' || ('\U{2000}' <= c <= '\U{200A}')
    || c == '\U{2028}' || c == '\U{2029}' || c == '\U{202F}' || c == '\U{205F}'
    || c == '\U{3000}' || c == '\U{FEFF}'
  }

  /** Step 2a: `replace(/[^A-Za-z0-9]/gim, " ")`. */
  function ReplaceNonAlnum(s: string): (r: string)
    ensures |r| == |s|
    ensures forall i :: 0 <= i < |s| ==> (IsAlnum(s[i]) ==> r[i] == s[i]) && (!IsAlnum(s[i]) ==> r[i] == ' ')
  {
    seq(|s|, i requires 0 <= i < |s| => if IsAlnum(s[i]) then s[i] else ' ')
  }

  /** No whitespace character other than a space, and never two whitespace characters in a row. */
  predicate SingleSpaced(s: string)
  {
    && (forall i :: 0 <= i < |s| && IsWhitespace(s[i]) ==> s[i] == ' ')
    && (forall i :: 0 <= i < |s| - 1 ==> !(IsWhitespace(s[i]) && IsWhitespace(s[i + 1])))
  }

  /** The characters of a text that are not whitespace, in order. */
  function Visible(s: string): string
  {
    if |s| == 0 then ""
    else if IsWhitespace(s[0]) then Visible(s[1..])
    else [s[0]] + Visible(s[1..])
  }

  /** The maximal runs of non-whitespace characters of a text, in order. */
  function Words(s: string): (ws: seq<string>)
    ensures |s| > 0 && !IsWhitespace(s[0]) ==> |ws| > 0
    decreases |s|
  {
    if |s| == 0 then []
    else if IsWhitespace(s[0]) then Words(s[1..])
    else
      var rest := Words(s[1..]);
      if |s| > 1 && !IsWhitespace(s[1]) then [[s[0]] + rest[0]] + rest[1..]
      else [[s[0]]] + rest
  }

  /** Step 2b: `replace(/\s+/g, " ")`, every maximal run of whitespace becomes one space, so
      no two whitespace characters are left side by side (words and ends: `CollapseKeepsWords`,
      `CollapseKeepsEnd`). */
  function CollapseWhitespace(s: string): (r: string)
    ensures SingleSpaced(r)
    ensures |r| > 0 <==> |s| > 0
    ensures |s| > 0 ==> (IsWhitespace(r[0]) <==> IsWhitespace(s[0]))
    ensures forall i :: 0 <= i < |r| ==> r[i] == ' ' || r[i] in s
    ensures Visible(r) == Visible(s)
    decreases |s|
  {
    if |s| == 0 then ""
    else if IsWhitespace(s[0]) then
      if |s| > 1 && IsWhitespace(s[1]) then CollapseWhitespace(s[1..])
      else [' '] + CollapseWhitespace(s[1..])
    else [s[0]] + CollapseWhitespace(s[1..])
  }

  /** Collapsing keeps a whitespace run at the end of the text, and only there. */
  lemma {:induction false} CollapseKeepsEnd(s: string)
    ensures |s| > 0 ==> (IsWhitespace(CollapseWhitespace(s)[|CollapseWhitespace(s)| - 1]) <==> IsWhitespace(s[|s| - 1]))
    decreases |s|
  {
    if |s| > 1 {
      CollapseKeepsEnd(s[1..]);
      var rest := CollapseWhitespace(s[1..]);
      var r := CollapseWhitespace(s);
      assert s[1..][|s[1..]| - 1] == s[|s| - 1];
      assert |rest| > 0;
      if !IsWhitespace(s[0]) || !IsWhitespace(s[1]) {
        assert r == [if IsWhitespace(s[0]) then ' ' else s[0]] + rest;
        assert r[|r| - 1] == rest[|rest| - 1];
      }
    }
  }

  /** Collapsing keeps the words and their order: only the whitespace runs between, before and
      after the words shrink to one space. */
  lemma {:induction false} CollapseKeepsWords(s: string)
    ensures Words(CollapseWhitespace(s)) == Words(s)
    decreases |s|
  {
    if |s| > 0 {
      CollapseKeepsWords(s[1..]);
      var rest := CollapseWhitespace(s[1..]);
      var r := CollapseWhitespace(s);
      if IsWhitespace(s[0]) {
        if !(|s| > 1 && IsWhitespace(s[1])) {
          assert r == [' '] + rest;
          assert r[1..] == rest;
          assert Words(r) == Words(rest);
        }
      } else {
        assert r == [s[0]] + rest;
        assert r[1..] == rest;
        assert |r| > 1 <==> |s| > 1;
        assert |s| > 1 ==> (IsWhitespace(r[1]) <==> IsWhitespace(s[1]));
      }
    }
  }

  /** Collapsing changes nothing in text that is already single-spaced, so it is idempotent. */
  lemma {:induction false} CollapseSingleSpaced(s: string)
    requires SingleSpaced(s)
    ensures CollapseWhitespace(s) == s
    decreases |s|
  {
    if |s| > 0 {
      assert SingleSpaced(s[1..]) by {
        forall i | 0 <= i < |s[1..]| - 1 ensures !(IsWhitespace(s[1..][i]) && IsWhitespace(s[1..][i + 1])) {
          assert s[1..][i] == s[i + 1] && s[1..][i + 1] == s[i + 2];
        }
      }
      CollapseSingleSpaced(s[1..]);
      if IsWhitespace(s[0]) {
        assert s[0] == ' ';
        assert |s| > 1 ==> !IsWhitespace(s[1]);
      }
      assert s == [s[0]] + s[1..];
    }
  }

  /** Normalised body text: ASCII letters, digits and single spaces only. */
  predicate Normalized(s: string)
  {
    && (forall i :: 0 <= i < |s| ==> IsAlnum(s[i]) || s[i] == ' ')
    && (forall i :: 0 <= i < |s| - 1 ==> !(s[i] == ' ' && s[i + 1] == ' '))
  }

  /** The normalised body of a raw email (the source's `stripBodyText`); its length is the `bodyLength`. */
  function StripBodyText(text: string): (body: string)
    ensures Normalized(body)
  {
    var replaced := ReplaceNonAlnum(StripHeader(text));
    var body := CollapseWhitespace(replaced);
    assert forall i :: 0 <= i < |body| ==> IsAlnum(body[i]) || body[i] == ' ' by {
      forall i | 0 <= i < |body| ensures IsAlnum(body[i]) || body[i] == ' ' {
        if body[i] != ' ' {
          var j :| 0 <= j < |replaced| && replaced[j] == body[i];
        }
      }
    }
    body
  }

  /** A body of letters and digits after three header lines is its own normalised text,
      whatever its length: the body is never truncated. */
  lemma AlnumBodyUnchanged(h1: string, h2: string, h3: string, body: string)
    requires '\n' !in h1 && '\n' !in h2 && '\n' !in h3
    requires forall i :: 0 <= i < |body| ==> IsAlnum(body[i])
    ensures StripBodyText(h1 + "\n" + h2 + "\n" + h3 + "\n" + body) == body
  {
    var text := h1 + "\n" + h2 + "\n" + h3 + "\n" + body;
    assert '\n' !in body by {
      forall i | 0 <= i < |body| ensures body[i] != '\n' { assert IsAlnum(body[i]); }
    }
    SplitFree(body, '\n');
    SplitAfterFree(h3, '\n', body);
    SplitAfterFree(h2, '\n', h3 + "\n" + body);
    assert h2 + "\n" + h3 + "\n" + body == h2 + ['\n'] + (h3 + ['\n'] + body);
    SplitAfterFree(h1, '\n', h2 + "\n" + h3 + "\n" + body);
    assert text == h1 + ['\n'] + (h2 + "\n" + h3 + "\n" + body);
    assert Split(text, '\n') == [h1, h2, h3, body];
    assert StripHeader(text) == body;
    assert ReplaceNonAlnum(body) == body;
    assert SingleSpaced(body) by {
      forall i | 0 <= i < |body| ensures !IsWhitespace(body[i]) { assert IsAlnum(body[i]); }
    }
    CollapseSingleSpaced(body);
  }

  /** The set of words of a text (`split(" ")` added into a Set). */
  function Tokens(text: string): (words: set<string>)
    ensures Split(text, ' ')[0] in words
    ensures |words| >= 1
  {
    var words := set w | w in Split(text, ' ');
    assert Split(text, ' ')[0] in words;
    words
  }

  /** The words of a normalised text are made of letters and digits only. */
  lemma TokensAlnum(text: string)
    requires Normalized(text)
    ensures forall w :: w in Tokens(text) ==> forall c :: c in w ==> IsAlnum(c)
  {
    SplitPieces(text, ' ');
    forall w | w in Tokens(text) ensures forall c :: c in w ==> IsAlnum(c) {
      var k :| 0 <= k < |Split(text, ' ')| && Split(text, ' ')[k] == w;
      forall c | c in w ensures IsAlnum(c) {
        assert c != ' ' && c in text;
      }
    }
  }

  /** An empty first piece means the text is empty or starts with the separator;
      an empty last piece means it is empty or ends with it. */
  lemma {:induction false} SplitEdges(s: string, sep: char)
    ensures Split(s, sep)[0] == "" ==> |s| == 0 || s[0] == sep
    ensures Split(s, sep)[|Split(s, sep)| - 1] == "" ==> |s| == 0 || s[|s| - 1] == sep
    decreases |s|
  {
    if |s| > 0 {
      SplitEdges(s[1..], sep);
      var rest := Split(s[1..], sep);
      var parts := Split(s, sep);
      if s[0] == sep {
        assert parts[|parts| - 1] == rest[|rest| - 1];
      } else if |rest| > 1 {
        assert parts[|parts| - 1] == rest[|rest| - 1];
      }
    }
  }

  /** Without two separators in a row, every piece strictly between the first and the last is non-empty. */
  lemma {:induction false} SplitInnerNonEmpty(s: string, sep: char)
    requires forall i :: 0 <= i < |s| - 1 ==> !(s[i] == sep && s[i + 1] == sep)
    ensures forall k :: 0 < k < |Split(s, sep)| - 1 ==> Split(s, sep)[k] != ""
    decreases |s|
  {
    if |s| > 0 {
      var rest := Split(s[1..], sep);
      assert forall i :: 0 <= i < |s[1..]| - 1 ==> !(s[1..][i] == sep && s[1..][i + 1] == sep) by {
        forall i | 0 <= i < |s[1..]| - 1 ensures !(s[1..][i] == sep && s[1..][i + 1] == sep) {
          assert s[1..][i] == s[i + 1] && s[1..][i + 1] == s[i + 2];
        }
      }
      SplitInnerNonEmpty(s[1..], sep);
      SplitEdges(s[1..], sep);
      var parts := Split(s, sep);
      forall k | 0 < k < |parts| - 1 ensures parts[k] != "" {
        if s[0] == sep {
          assert parts[k] == rest[k - 1];
        } else {
          assert parts[k] == rest[k];
        }
      }
    }
  }

  /** In normalised text the empty word can only come from a space at either end
      (or from the empty text): `split(" ")` does not drop it. */
  lemma EmptyWordOnlyAtEdges(text: string)
    requires Normalized(text)
    requires "" in Tokens(text)
    ensures |text| == 0 || text[0] == ' ' || text[|text| - 1] == ' '
  {
    var parts := Split(text, ' ');
    var k :| 0 <= k < |parts| && parts[k] == "";
    SplitInnerNonEmpty(text, ' ');
    SplitEdges(text, ' ');
  }

  /** A text ending with the separator has the empty string as its last piece. */
  lemma {:induction false} LastPieceEmpty(s: string, sep: char)
    requires |s| > 0 && s[|s| - 1] == sep
    ensures Split(s, sep)[|Split(s, sep)| - 1] == ""
    decreases |s|
  {
    var rest := Split(s[1..], sep);
    if |s| == 1 {
      assert s[1..] == "";
    } else {
      assert s[1..][|s[1..]| - 1] == sep;
      LastPieceEmpty(s[1..], sep);
      var parts := Split(s, sep);
      if s[0] == sep {
        assert parts[|parts| - 1] == rest[|rest| - 1];
      } else {
        assert parts[|parts| - 1] == rest[|rest| - 1];
      }
    }
  }

  /** `split(" ")` keeps empty pieces: the empty text, or a text starting or ending with a
      space, has the empty word among its words. */
  lemma EmptyWordAtEdges(text: string)
    requires |text| == 0 || text[0] == ' ' || text[|text| - 1] == ' '
    ensures "" in Tokens(text)
  {
    var parts := Split(text, ' ');
    if |text| == 0 || text[0] == ' ' {
      assert parts[0] == "";
    } else {
      LastPieceEmpty(text, ' ');
      assert parts[|parts| - 1] in Tokens(text);
    }
  }

  /** `splitIntoWords(text, wordSet)`: adds every piece of `text.split(" ")` into the set. */
  method SplitIntoWords(text: string, wordSet: set<string>) returns (result: set<string>)
    ensures result == wordSet + Tokens(text)
  {
    var words := Split(text, ' ');
    result := wordSet;
    var i := 0;
    while i < |words|
      invariant 0 <= i <= |words|
      invariant result == wordSet + set w | w in words[..i]
    {
      assert words[..i + 1] == words[..i] + [words[i]];
      result := result + {words[i]};
      i := i + 1;
    }
    assert words[..i] == words;
  }
}
