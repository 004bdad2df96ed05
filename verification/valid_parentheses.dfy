/** Bracket matching with a stack (valid_parentheses.py), proved equal to
    the grammar of well-nested bracket strings. */
module ValidParentheses {
  import opened Wrappers

  predicate IsOpener(c: char)
  {
    c == '(' || c == '[' || c == '{'
  }

  predicate IsCloser(c: char)
  {
    c == ')' || c == ']' || c == '}'
  }

  /** The opener each closer answers (`close_open_map`). */
  function OpenerFor(c: char): (o: char)
    requires IsCloser(c)
    ensures IsOpener(o)
  {
    if c == ')' then '(' else if c == ']' then '[' else '{'
  }

  /** Every character of s is one of `()[]{}`. */
  predicate Brackets(s: string)
  {
    forall i :: 0 <= i < |s| ==> IsOpener(s[i]) || IsCloser(s[i])
  }

  /** Every entry of the stack is an opener. */
  predicate Openers(stack: seq<char>)
  {
    forall i :: 0 <= i < |stack| ==> IsOpener(stack[i])
  }

  /** The well-nested strings: empty, or an opener, a well-nested string,
      the matching closer and another well-nested string. */
  ghost predicate Balanced(s: string)
    decreases |s|, 1
  {
    |s| == 0 || (IsOpener(s[0]) && exists m :: SplitAt(s, m))
  }

  /** s[m] is the closer matching s[0], and s[1..m] and s[m+1..] are
      well nested. */
  ghost predicate SplitAt(s: string, m: int)
    decreases |s|, 0
  {
    && 1 <= m < |s| && IsCloser(s[m]) && OpenerFor(s[m]) == s[0]
    && Balanced(s[1..m]) && Balanced(s[m+1..])
  }

  /** The loop of `valid_parentheses` run over s from the given stack:
      None when it returns False early, otherwise the stack it ends with. */
  function Scan(s: string, stack: seq<char>): (r: Option<seq<char>>)
    requires Brackets(s)
    ensures Openers(stack) && r.Some? ==> Openers(r.value)
    decreases |s|
  {
    if |s| == 0 then Some(stack)
    else if IsOpener(s[0]) then Scan(s[1..], stack + [s[0]])
    else if |stack| == 0 || OpenerFor(s[0]) != stack[|stack| - 1] then None
    else Scan(s[1..], stack[..|stack| - 1])
  }

  // ---------------------------------------------------------------------
  // The scan and the grammar agree

  /** Scanning x + y is scanning x, then y from where x left the stack. */
  lemma {:induction false} ScanConcat(x: string, y: string, stack: seq<char>)
    requires Brackets(x) && Brackets(y)
    ensures Brackets(x + y)
    ensures Scan(x + y, stack) == if Scan(x, stack).None? then None else Scan(y, Scan(x, stack).value)
    decreases |x|
  {
    if |x| == 0 {
      assert x + y == y;
    } else {
      assert (x + y)[0] == x[0] && (x + y)[1..] == x[1..] + y;
      if IsOpener(x[0]) {
        ScanConcat(x[1..], y, stack + [x[0]]);
      } else if |stack| > 0 && OpenerFor(x[0]) == stack[|stack| - 1] {
        ScanConcat(x[1..], y, stack[..|stack| - 1]);
      }
    }
  }

  /** A well-nested string leaves any stack as it found it. */
  lemma {:induction false} BalancedLeavesStack(b: string, stack: seq<char>)
    requires Brackets(b) && Balanced(b)
    ensures Scan(b, stack) == Some(stack)
    decreases |b|
  {
    if |b| > 0 {
      var m :| SplitAt(b, m);
      var pushed := stack + [b[0]];
      assert b[1..] == b[1..m] + ([b[m]] + b[m+1..]);
      ScanConcat(b[1..m], [b[m]] + b[m+1..], pushed);
      BalancedLeavesStack(b[1..m], pushed);
      assert ([b[m]] + b[m+1..])[1..] == b[m+1..];
      assert pushed[..|pushed| - 1] == stack;
      BalancedLeavesStack(b[m+1..], stack);
    }
  }

  /** Two well-nested strings in a row form a well-nested string. */
  lemma {:induction false} BalancedConcat(b: string, t: string)
    requires Balanced(b) && Balanced(t)
    ensures Balanced(b + t)
    decreases |b|
  {
    if |b| == 0 {
      assert b + t == t;
    } else {
      var m :| SplitAt(b, m);
      BalancedConcat(b[m+1..], t);
      var bt := b + t;
      assert bt[0] == b[0] && bt[m] == b[m];
      assert bt[1..m] == b[1..m] && bt[m+1..] == b[m+1..] + t;
      assert SplitAt(bt, m);
    }
  }

  /** s closes the openers of the stack, top first: a well-nested
      string, the closer for the top, and then a string that closes the
      rest of the stack. */
  ghost predicate Closes(stack: seq<char>, s: string)
    decreases |stack|, 1
  {
    if |stack| == 0 then Balanced(s) else exists m :: ClosesAt(stack, s, m)
  }

  /** s[m] closes the top of the stack, s[..m] is well nested and
      s[m+1..] closes the rest. */
  ghost predicate ClosesAt(stack: seq<char>, s: string, m: int)
    requires |stack| > 0
    decreases |stack|, 0
  {
    && 0 <= m < |s| && IsCloser(s[m]) && OpenerFor(s[m]) == stack[|stack| - 1]
    && Balanced(s[..m]) && Closes(stack[..|stack| - 1], s[m+1..])
  }

  /** A well-nested string in front does not disturb the closing. */
  lemma ClosesPrepend(stack: seq<char>, b: string, t: string)
    requires Balanced(b) && Closes(stack, t)
    ensures Closes(stack, b + t)
  {
    if |stack| == 0 {
      BalancedConcat(b, t);
    } else {
      var m :| ClosesAt(stack, t, m);
      var bt := b + t;
      BalancedConcat(b, t[..m]);
      assert bt[|b| + m] == t[m];
      assert bt[..|b| + m] == b + t[..m] && bt[|b| + m + 1..] == t[m+1..];
      assert ClosesAt(stack, bt, |b| + m);
    }
  }

  /** An opener followed by a string closing [stack..., opener]: the
      opener's block is well nested and the rest closes the stack. */
  lemma OpenerThenCloses(stack: seq<char>, s: string)
    requires |s| > 0 && IsOpener(s[0])
    requires Closes(stack + [s[0]], s[1..])
    ensures Closes(stack, s)
  {
    var pushed := stack + [s[0]];
    assert pushed[..|pushed| - 1] == stack;
    var m :| ClosesAt(pushed, s[1..], m);
    var b := s[..m + 2];
    var t := s[1..][m+1..];
    assert b[1..m + 1] == s[1..][..m];
    assert b[m + 2..] == [] && Balanced(b[m + 2..]);
    assert SplitAt(b, m + 1);
    assert s == b + t;
    ClosesPrepend(stack, b, t);
  }

  /** A closer for the top of the stack followed by a string closing the
      rest closes the whole stack. */
  lemma CloserThenCloses(stack: seq<char>, s: string)
    requires |s| > 0 && |stack| > 0 && IsCloser(s[0]) && OpenerFor(s[0]) == stack[|stack| - 1]
    requires Closes(stack[..|stack| - 1], s[1..])
    ensures Closes(stack, s)
  {
    assert s[..0] == [] && Balanced(s[..0]);
    assert ClosesAt(stack, s, 0);
  }

  /** A scan that empties the stack has read a string closing it. */
  lemma {:induction false} ScanSound(s: string, stack: seq<char>)
    requires Brackets(s)
    requires Scan(s, stack) == Some([])
    ensures Closes(stack, s)
    decreases |s|
  {
    if |s| == 0 {
      assert Balanced(s);
    } else if IsOpener(s[0]) {
      ScanSound(s[1..], stack + [s[0]]);
      OpenerThenCloses(stack, s);
    } else {
      ScanSound(s[1..], stack[..|stack| - 1]);
      CloserThenCloses(stack, s);
    }
  }

  /** The scan from an empty stack ends with an empty stack exactly for
      the well-nested strings. */
  lemma ScanIffBalanced(s: string)
    requires Brackets(s)
    ensures Scan(s, []) == Some([]) <==> Balanced(s)
  {
    if Balanced(s) {
      BalancedLeavesStack(s, []);
    }
    if Scan(s, []) == Some([]) {
      ScanSound(s, []);
    }
  }

  /** Well-nested strings have even length. */
  lemma {:induction false} BalancedEven(s: string)
    requires Balanced(s)
    ensures |s| % 2 == 0
    decreases |s|
  {
    if |s| > 0 {
      var m :| SplitAt(s, m);
      BalancedEven(s[1..m]);
      BalancedEven(s[m+1..]);
    }
  }

  /** Returning False at a bad closer is right: once the scan of a prefix
      fails, no continuation makes the string well nested. */
  lemma RejectedPrefixNeverValid(p: string, y: string)
    requires Brackets(p) && Brackets(y)
    requires Scan(p, []) == None
    ensures !Balanced(p + y)
  {
    ScanConcat(p, y, []);
    ScanIffBalanced(p + y);
  }

  // ---------------------------------------------------------------------
  // The function itself

  /** `valid_parentheses(s)`: s must consist of brackets only. The answer
      is True exactly for the well-nested strings, which have even length. */
  method IsValid(s: string) returns (ok: bool)
    requires Brackets(s)
    ensures ok <==> Balanced(s)
    ensures ok ==> |s| % 2 == 0
  {
    ScanIffBalanced(s);
    var stack: seq<char> := [];
    for i := 0 to |s|
      invariant Openers(stack)
      invariant Scan(s[i..], stack) == Scan(s, [])
    {
      var c := s[i];
      assert s[i..][0] == c && s[i..][1..] == s[i + 1..];
      if IsOpener(c) {
        stack := stack + [c];
      } else if |stack| == 0 || OpenerFor(c) != stack[|stack| - 1] {
        return false;
      } else {
        stack := stack[..|stack| - 1];
      }
    }
    assert s[|s|..] == [];
    ok := |stack| == 0;
    if ok {
      BalancedEven(s);
    }
  }

  /** The empty string is valid. */
  method EmptyExample() returns (ok: bool)
    ensures ok
  {
    assert Balanced("");
    ok := IsValid("");
  }
}
