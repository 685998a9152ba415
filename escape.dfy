/** Escaping of the text of a GitHub Actions workflow command, as the harness
    does before it emits an `::error` annotation: `%` becomes `%25`, a carriage
    return `%0D` and a line feed `%0A`. The harness writes this as three chained
    `str.replace` calls; this module proves that the chain is the same as
    escaping each character on its own, and states what follows from that. */
module GithubEscape {

  /** Python's `s.replace(pat, rep)` for a non-empty pattern: the string is
      scanned from the left, and every occurrence of `pat` that does not overlap
      an earlier one is replaced by `rep`. */
  function Replace(s: string, pat: string, rep: string): (r: string)
    requires |pat| > 0
    decreases |s|
  {
    if pat <= s then rep + Replace(s[|pat|..], pat, rep)
    else if |s| == 0 then []
    else [s[0]] + Replace(s[1..], pat, rep)
  }

  /** Replacing the one character `c` by `rep` everywhere, one character at a time. */
  function ReplaceEach(s: string, c: char, rep: string): string
  {
    if |s| == 0 then []
    else (if s[0] == c then rep else [s[0]]) + ReplaceEach(s[1..], c, rep)
  }

  /** The annotation escaping of the harness, exactly as it chains the replaces. */
  function EncodeMsgTextForGithub(msg: string): string
  {
    Replace(Replace(Replace(msg, "%", "%25"), "\r", "%0D"), "\n", "%0A")
  }

  /** The escape of one character. */
  function EscapeChar(c: char): (e: string)
    ensures c !in "%\r\n" ==> e == [c]
    ensures c in "%\r\n" ==> |e| == 3 && e[0] == '%'
  {
    if c == '%' then "%25"
    else if c == '\r' then "%0D"
    else if c == '\n' then "%0A"
    else [c]
  }

  /** The reference definition: every character escaped on its own. */
  function Escape(s: string): string
  {
    if |s| == 0 then [] else EscapeChar(s[0]) + Escape(s[1..])
  }

  /** The inverse of Escape: each of the three escapes decodes to its character. */
  function Unescape(s: string): string
    decreases |s|
  {
    if |s| == 0 then []
    else if "%25" <= s then "%" + Unescape(s[3..])
    else if "%0D" <= s then "\r" + Unescape(s[3..])
    else if "%0A" <= s then "\n" + Unescape(s[3..])
    else [s[0]] + Unescape(s[1..])
  }

  /** A one-character pattern makes str.replace a per-character map. */
  lemma {:induction false} ReplaceSingleChar(s: string, c: char, rep: string)
    ensures Replace(s, [c], rep) == ReplaceEach(s, c, rep)
  {
    if |s| > 0 {
      ReplaceSingleChar(s[1..], c, rep);
      if s[0] == c {
        assert [c] <= s;
      } else {
        assert !([c] <= s);
      }
    }
  }

  lemma {:induction false} ReplaceEachAppend(a: string, b: string, c: char, rep: string)
    ensures ReplaceEach(a + b, c, rep) == ReplaceEach(a, c, rep) + ReplaceEach(b, c, rep)
  {
    if |a| > 0 {
      ReplaceEachAppend(a[1..], b, c, rep);
      assert (a + b)[1..] == a[1..] + b;
      assert (a + b)[0] == a[0];
    } else {
      assert a + b == b;
    }
  }

  lemma {:induction false} ReplaceEachAbsent(s: string, c: char, rep: string)
    requires c !in s
    ensures ReplaceEach(s, c, rep) == s
  {
    if |s| > 0 {
      assert s[1..] + [] == s[1..];
      assert forall k :: 0 <= k < |s[1..]| ==> s[1..][k] == s[k + 1];
      ReplaceEachAbsent(s[1..], c, rep);
      assert [s[0]] + s[1..] == s;
    }
  }

  lemma ReplaceEachOne(c: char, x: char, rep: string)
    ensures ReplaceEach([c], x, rep) == if c == x then rep else [c]
  {
    assert [c][1..] == [];
  }

  /** The three chained per-character maps applied to one character give its escape:
      `%` goes first, and no later pattern occurs in what an earlier one inserted. */
  lemma ChainOnChar(c: char)
    ensures ReplaceEach(ReplaceEach(ReplaceEach([c], '%', "%25"), '\r', "%0D"), '\n', "%0A")
         == EscapeChar(c)
  {
    ReplaceEachOne(c, '%', "%25");
    if c == '%' {
      ReplaceEachAbsent("%25", '\r', "%0D");
      ReplaceEachAbsent("%25", '\n', "%0A");
    } else {
      ReplaceEachOne(c, '\r', "%0D");
      if c == '\r' {
        ReplaceEachAbsent("%0D", '\n', "%0A");
      } else {
        ReplaceEachOne(c, '\n', "%0A");
      }
    }
  }

  /** The chained replaces equal the single-pass escape, on every input. */
  lemma {:induction false} EncodeIsEscape(msg: string)
    ensures EncodeMsgTextForGithub(msg) == Escape(msg)
  {
    ReplaceSingleChar(msg, '%', "%25");
    ReplaceSingleChar(ReplaceEach(msg, '%', "%25"), '\r', "%0D");
    ReplaceSingleChar(ReplaceEach(ReplaceEach(msg, '%', "%25"), '\r', "%0D"), '\n', "%0A");
    ChainIsEscape(msg);
  }

  lemma {:induction false} ChainIsEscape(s: string)
    ensures ReplaceEach(ReplaceEach(ReplaceEach(s, '%', "%25"), '\r', "%0D"), '\n', "%0A")
         == Escape(s)
  {
    if |s| > 0 {
      var c, t := s[0], s[1..];
      assert s == [c] + t;
      ReplaceEachAppend([c], t, '%', "%25");
      var a1, b1 := ReplaceEach([c], '%', "%25"), ReplaceEach(t, '%', "%25");
      ReplaceEachAppend(a1, b1, '\r', "%0D");
      var a2, b2 := ReplaceEach(a1, '\r', "%0D"), ReplaceEach(b1, '\r', "%0D");
      ReplaceEachAppend(a2, b2, '\n', "%0A");
      ChainOnChar(c);
      ChainIsEscape(t);
    }
  }

  lemma UnescapeStep(c: char, t: string)
    ensures Unescape(EscapeChar(c) + t) == [c] + Unescape(t)
  {
    var s := EscapeChar(c) + t;
    if c == '%' {
      assert "%25" <= s && s[3..] == t;
    } else if c == '\r' {
      assert !("%25" <= s) && "%0D" <= s && s[3..] == t;
    } else if c == '\n' {
      assert !("%25" <= s) && !("%0D" <= s) && "%0A" <= s && s[3..] == t;
    } else {
      assert s[0] == c && s[1..] == t;
    }
  }

  /** Unescaping recovers the original message, so the escape loses nothing. */
  lemma {:induction false} UnescapeEncode(msg: string)
    ensures Unescape(EncodeMsgTextForGithub(msg)) == msg
  {
    EncodeIsEscape(msg);
    UnescapeEscape(msg);
  }

  lemma {:induction false} UnescapeEscape(s: string)
    ensures Unescape(Escape(s)) == s
  {
    if |s| > 0 {
      UnescapeStep(s[0], Escape(s[1..]));
      UnescapeEscape(s[1..]);
    }
  }

  lemma {:induction false} EscapeHasNoLineBreaks(s: string)
    ensures '\r' !in Escape(s) && '\n' !in Escape(s)
  {
    if |s| > 0 {
      EscapeHasNoLineBreaks(s[1..]);
      var e := EscapeChar(s[0]);
      assert '\r' !in e && '\n' !in e;
    }
  }

  /** The escaped message holds no raw carriage return or line feed. */
  lemma EncodeHasNoLineBreaks(msg: string)
    ensures '\r' !in EncodeMsgTextForGithub(msg) && '\n' !in EncodeMsgTextForGithub(msg)
  {
    EncodeIsEscape(msg);
    EscapeHasNoLineBreaks(msg);
  }

  lemma {:induction false} EscapePlain(s: string)
    requires forall k :: 0 <= k < |s| ==> s[k] !in "%\r\n"
    ensures Escape(s) == s
  {
    if |s| > 0 {
      EscapePlain(s[1..]);
      assert [s[0]] + s[1..] == s;
    }
  }

  /** A message free of `%`, `\r` and `\n` is left as it is. */
  lemma EncodePlain(msg: string)
    requires forall k :: 0 <= k < |msg| ==> msg[k] !in "%\r\n"
    ensures EncodeMsgTextForGithub(msg) == msg
  {
    EncodeIsEscape(msg);
    EscapePlain(msg);
  }
}
