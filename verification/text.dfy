/** String operations the note store relies on: ASCII case folding (the model
    of `toLowerCase`), whitespace trimming (`trim`) and substring search
    (`includes`). Strings are sequences of Unicode scalar values. */
module Text {

  /** The characters `String.prototype.trim` strips: white space and line
      terminators. */
  predicate IsSpace(c: char)
  {
    || c == ' ' || c == '\t' || c == '\n' || c == '\r'
    || c == '\U{000B}' || c == '\U{000C}' || c == '\U{00A0}' || c == '\U{1680}'
    || ('\U{2000}' <= c <= '\U{200A}')
    || c == '\U{2028}' || c == '\U{2029}' || c == '\U{202F}' || c == '\U{205F}'
    || c == '\U{3000}' || c == '\U{FEFF}'
  }

  predicate AllSpace(s: string)
  {
    forall i :: 0 <= i < |s| ==> IsSpace(s[i])
  }

  predicate IsUpper(c: char)
  {
    'A' <= c <= 'Z'
  }

  function LowerChar(c: char): char
  {
    if IsUpper(c) then (c as int + 32) as char else c
  }

  /** Case folding, restricted to the ASCII letters. */
  function Lower(s: string): (r: string)
    ensures |r| == |s|
    ensures forall i :: 0 <= i < |s| ==> !IsUpper(r[i])
    ensures forall i :: 0 <= i < |s| ==> (IsSpace(r[i]) <==> IsSpace(s[i]))
    ensures forall i :: 0 <= i < |s| && IsSpace(s[i]) ==> r[i] == s[i]
  {
    seq(|s|, i requires 0 <= i < |s| => LowerChar(s[i]))
  }

  /** Folding twice folds once. */
  lemma LowerIdempotent(s: string)
    ensures Lower(Lower(s)) == Lower(s)
  {
  }

  /** `t` occurs in `s` starting at index `i`. */
  ghost predicate OccursAt(s: string, t: string, i: int)
  {
    0 <= i && i + |t| <= |s| && s[i..i + |t|] == t
  }

  /** `s.includes(t)`: tries each starting position from the left. Every
      string includes the empty string, and none includes a longer one. */
  function Contains(s: string, t: string): (r: bool)
    ensures t == [] ==> r
    ensures r ==> |t| <= |s|
    decreases |s|
  {
    if |t| > |s| then false
    else if s[..|t|] == t then true
    else Contains(s[1..], t)
  }

  /** `Contains` is exactly "occurs at some position". */
  lemma {:induction false} ContainsIff(s: string, t: string)
    ensures Contains(s, t) <==> exists i :: OccursAt(s, t, i)
    decreases |s|
  {
    if |t| > |s| {
    } else if s[..|t|] == t {
      assert OccursAt(s, t, 0);
    } else {
      ContainsIff(s[1..], t);
      if Contains(s[1..], t) {
        var i :| OccursAt(s[1..], t, i);
        assert s[i + 1..i + 1 + |t|] == s[1..][i..i + |t|];
        assert OccursAt(s, t, i + 1);
      } else {
        forall i | OccursAt(s, t, i) ensures false {
          assert i != 0;
          var j := i - 1;
          assert s[1..][j..j + |t|] == s[i..i + |t|];
          assert OccursAt(s[1..], t, j);
        }
      }
    }
  }

  /** Drops leading white space. */
  function TrimStart(s: string): string
  {
    if s != [] && IsSpace(s[0]) then TrimStart(s[1..]) else s
  }

  /** Drops trailing white space. */
  function TrimEnd(s: string): string
  {
    if s != [] && IsSpace(s[|s| - 1]) then TrimEnd(s[..|s| - 1]) else s
  }

  lemma {:induction false} TrimStartShape(s: string)
    ensures TrimStart(s) == [] <==> AllSpace(s)
    ensures TrimStart(s) != [] ==> !IsSpace(TrimStart(s)[0])
  {
    if s != [] && IsSpace(s[0]) {
      TrimStartShape(s[1..]);
      assert AllSpace(s) <==> AllSpace(s[1..]) by {
        if AllSpace(s[1..]) {
          forall i | 0 <= i < |s| ensures IsSpace(s[i]) {
            if i > 0 { assert s[i] == s[1..][i - 1]; }
          }
        }
      }
    }
  }

  lemma SpacePrefixCons(s: string, k: nat)
    requires k < |s| && IsSpace(s[0]) && AllSpace(s[1..][..k])
    ensures AllSpace(s[..k + 1]) && s[1..][k..] == s[k + 1..]
  {
    var head := s[..k + 1];
    forall i | 0 <= i < |head| ensures IsSpace(head[i]) {
      if i > 0 { assert head[i] == s[1..][..k][i - 1]; }
    }
  }

  /** `TrimStart` cuts off a blank prefix. */
  lemma {:induction false} TrimStartIsSuffix(s: string)
    ensures exists k :: 0 <= k <= |s| && AllSpace(s[..k]) && TrimStart(s) == s[k..]
  {
    if s != [] && IsSpace(s[0]) {
      TrimStartIsSuffix(s[1..]);
      var k :| 0 <= k <= |s| - 1 && AllSpace(s[1..][..k]) && TrimStart(s[1..]) == s[1..][k..];
      SpacePrefixCons(s, k);
    } else {
      assert s[..0] == [] && s[0..] == s;
    }
  }

  lemma {:induction false} TrimEndShape(s: string)
    ensures TrimEnd(s) == [] <==> AllSpace(s)
    ensures TrimEnd(s) != [] ==> TrimEnd(s)[0] == s[0] && !IsSpace(TrimEnd(s)[|TrimEnd(s)| - 1])
  {
    if s != [] && IsSpace(s[|s| - 1]) {
      var init := s[..|s| - 1];
      TrimEndShape(init);
      assert AllSpace(s) <==> AllSpace(init) by {
        if AllSpace(init) {
          forall i | 0 <= i < |s| ensures IsSpace(s[i]) {
            if i < |s| - 1 { assert s[i] == init[i]; }
          }
        }
      }
    }
  }

  lemma SpaceSuffixSnoc(s: string, k: nat)
    requires k < |s| && IsSpace(s[|s| - 1]) && AllSpace(s[..|s| - 1][k..])
    ensures AllSpace(s[k..]) && s[..|s| - 1][..k] == s[..k]
  {
    var tail := s[k..];
    forall i | 0 <= i < |tail| ensures IsSpace(tail[i]) {
      if i < |tail| - 1 { assert tail[i] == s[..|s| - 1][k..][i]; }
    }
  }

  /** `TrimEnd` cuts off a blank suffix. */
  lemma {:induction false} TrimEndIsPrefix(s: string)
    ensures exists k :: 0 <= k <= |s| && AllSpace(s[k..]) && TrimEnd(s) == s[..k]
  {
    if s != [] && IsSpace(s[|s| - 1]) {
      var init := s[..|s| - 1];
      TrimEndIsPrefix(init);
      var k :| 0 <= k <= |init| && AllSpace(init[k..]) && TrimEnd(init) == init[..k];
      SpaceSuffixSnoc(s, k);
    } else {
      assert s[..|s|] == s && s[|s|..] == [];
    }
  }

  /** `s.trim()`: `s` with its leading and trailing white space removed.
      The result is empty exactly when `s` is blank, and otherwise neither
      starts nor ends with white space, so nothing more could be removed. */
  function Trim(s: string): (r: string)
    ensures exists i, j :: 0 <= i <= j <= |s| && AllSpace(s[..i]) && AllSpace(s[j..]) && r == s[i..j]
    ensures r == [] <==> AllSpace(s)
    ensures r != [] ==> !IsSpace(r[0]) && !IsSpace(r[|r| - 1])
  {
    TrimStartShape(s);
    TrimEndShape(TrimStart(s));
    TrimIsSlice(s);
    TrimEnd(TrimStart(s))
  }

  lemma SliceOfSuffix(s: string, i: nat, k: nat)
    requires i + k <= |s|
    ensures s[i..][..k] == s[i..i + k] && s[i..][k..] == s[i + k..]
  {
  }

  lemma TrimIsSlice(s: string)
    ensures exists i, j :: 0 <= i <= j <= |s| && AllSpace(s[..i]) && AllSpace(s[j..]) && TrimEnd(TrimStart(s)) == s[i..j]
  {
    TrimStartIsSuffix(s);
    var i :| 0 <= i <= |s| && AllSpace(s[..i]) && TrimStart(s) == s[i..];
    var t := s[i..];
    TrimEndIsPrefix(t);
    var k :| 0 <= k <= |t| && AllSpace(t[k..]) && TrimEnd(t) == t[..k];
    SliceOfSuffix(s, i, k);
    assert TrimEnd(TrimStart(s)) == s[i..i + k];
    assert AllSpace(s[i + k..]);
  }
}
