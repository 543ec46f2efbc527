/** SQL's three-valued logic over nullable values, as trigger conditions use it. */
module SqlLogic {
  import opened Outcomes

  datatype Truth = True | False | Unknown

  function Not(a: Truth): Truth {
    match a case True => False case False => True case Unknown => Unknown
  }

  function And(a: Truth, b: Truth): Truth {
    if a == False || b == False then False else if a == True && b == True then True else Unknown
  }

  function Or(a: Truth, b: Truth): Truth {
    if a == True || b == True then True else if a == False && b == False then False else Unknown
  }

  /** `c1 OR c2 OR ...`. */
  function AnyOf(conditions: seq<Truth>): Truth {
    if conditions == [] then False else Or(conditions[0], AnyOf(conditions[1..]))
  }

  /** A trigger's condition takes effect only when it is true: unknown lets the statement through. */
  predicate Fires(a: Truth) {
    a == True
  }

  lemma {:induction false} AnyOfFires(conditions: seq<Truth>)
    ensures Fires(AnyOf(conditions)) <==> True in conditions
  {
    if conditions != [] {
      AnyOfFires(conditions[1..]);
      assert forall c :: c in conditions <==> c == conditions[0] || c in conditions[1..];
    }
  }

  function Of(b: bool): Truth {
    if b then True else False
  }

  /** `a = b`. */
  function Equals<T(==)>(a: Option<T>, b: Option<T>): Truth {
    if a.None? || b.None? then Unknown else Of(a.value == b.value)
  }

  /** `a <> b`. */
  function Differs<T(==)>(a: Option<T>, b: Option<T>): Truth {
    Not(Equals(a, b))
  }

  /** `a IN (b, c)`. */
  function InPair<T(==)>(a: Option<T>, b: T, c: T): Truth {
    Or(Equals(a, Some(b)), Equals(a, Some(c)))
  }

  /** `a IS NULL`. */
  function IsNull<T>(a: Option<T>): Truth {
    Of(a.None?)
  }

  /** `a IS DISTINCT FROM b` in PostgreSQL, `a IS NOT b` in SQLite: never unknown. */
  function IsDistinct<T(==)>(a: Option<T>, b: Option<T>): Truth {
    Of(a != b)
  }

  /** `a < b`. */
  function LessThan(a: Option<int>, b: Option<int>): Truth {
    if a.None? || b.None? then Unknown else Of(a.value < b.value)
  }

  // ---- digests ----

  predicate IsHex(c: char) {
    '0' <= c <= '9' || 'a' <= c <= 'f'
  }

  /** A digest in the form both guards want: 64 lower-case hexadecimal characters. */
  predicate WellFormedDigest(s: string) {
    |s| == 64 && forall i :: 0 <= i < |s| ==> s[i] in "0123456789abcdef"
  }

  /** Matching `^[0-9a-f]{n}$`. */
  predicate MatchesRepeat(s: string, n: nat) {
    if n == 0 then s == "" else s != "" && IsHex(s[0]) && MatchesRepeat(s[1..], n - 1)
  }

  /** Matching the glob `*[^0-9a-f]*`: some suffix starts with a character outside the class. */
  predicate GlobsNonHex(s: string) {
    s != "" && (!IsHex(s[0]) || GlobsNonHex(s[1..]))
  }

  lemma {:induction false} RepeatMeans(s: string, n: nat)
    ensures MatchesRepeat(s, n) <==> |s| == n && forall i :: 0 <= i < |s| ==> IsHex(s[i])
  {
    if n > 0 && s != "" {
      RepeatMeans(s[1..], n - 1);
      assert forall i :: 0 < i < |s| ==> s[i] == s[1..][i - 1];
    }
  }

  lemma {:induction false} GlobMeans(s: string)
    ensures GlobsNonHex(s) <==> exists i :: 0 <= i < |s| && !IsHex(s[i])
  {
    if s != "" {
      GlobMeans(s[1..]);
      assert forall i :: 0 < i < |s| ==> s[i] == s[1..][i - 1];
      if exists i :: 0 <= i < |s[1..]| && !IsHex(s[1..][i]) {
        var i :| 0 <= i < |s[1..]| && !IsHex(s[1..][i]);
        assert !IsHex(s[i + 1]);
      }
    }
  }

  /** PostgreSQL: `a !~ '^[0-9a-f]{64}$'`. */
  function NotDigestRegex(a: Option<string>): Truth {
    if a.None? then Unknown else Of(!MatchesRepeat(a.value, 64))
  }

  /** SQLite: `length(a) <> 64`. */
  function LengthNot64(a: Option<string>): Truth {
    if a.None? then Unknown else Of(|a.value| != 64)
  }

  /** SQLite: `a GLOB '*[^0-9a-f]*'`. */
  function GlobNonHex(a: Option<string>): Truth {
    if a.None? then Unknown else Of(GlobsNonHex(a.value))
  }

  lemma HexDigits(c: char)
    ensures IsHex(c) <==> c in "0123456789abcdef"
  {
    var digits := "0123456789abcdef";
    if '0' <= c <= '9' {
      assert digits[c as int - '0' as int] == c;
    } else if 'a' <= c <= 'f' {
      assert digits[10 + (c as int - 'a' as int)] == c;
    }
  }

  /** The two dialects spell the same digest test, null included. */
  lemma DigestTestsAgree(a: Option<string>)
    ensures NotDigestRegex(a) == Or(LengthNot64(a), GlobNonHex(a))
    ensures Fires(NotDigestRegex(a)) <==> a.Some? && !WellFormedDigest(a.value)
  {
    if a.Some? {
      RepeatMeans(a.value, 64);
      GlobMeans(a.value);
      forall i | 0 <= i < |a.value| ensures IsHex(a.value[i]) <==> a.value[i] in "0123456789abcdef" {
        HexDigits(a.value[i]);
      }
    }
  }
}
