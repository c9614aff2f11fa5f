/** NUL-terminated character buffers as the C library sees them: the length
    of the string a buffer holds, substring search (strstr), and the removal
    of every occurrence of one character (fwstitcher's delchar). */
module CString {
  import opened Wrappers

  const NUL: char := '\0'

  /** strlen: the position of the first NUL, that is the length of the
      string the buffer holds. */
  function StrLen(buf: seq<char>): (n: nat)
    requires NUL in buf
    ensures n < |buf| && buf[n] == NUL && NUL !in buf[..n]
  {
    if buf[0] == NUL then 0 else 1 + StrLen(buf[1..])
  }

  /** The string a NUL-terminated buffer holds. */
  function CStr(buf: seq<char>): (s: seq<char>)
    requires NUL in buf
    ensures |s| < |buf| && buf[|s|] == NUL && NUL !in s && s == buf[..|s|]
  {
    buf[..StrLen(buf)]
  }

  lemma {:induction false} StrLenOfTerminated(s: seq<char>, rest: seq<char>)
    requires NUL !in s && rest != [] && rest[0] == NUL
    ensures StrLen(s + rest) == |s|
  {
    if s != [] {
      assert (s + rest)[1..] == s[1..] + rest;
      StrLenOfTerminated(s[1..], rest);
    }
  }

  ghost predicate OccursAt(hay: seq<char>, needle: seq<char>, i: nat)
  {
    i + |needle| <= |hay| && hay[i..i + |needle|] == needle
  }

  /** The first position at or after `from` where `needle` occurs in `hay`. */
  function FindFrom(hay: seq<char>, needle: seq<char>, from: nat): (r: Option<nat>)
    requires from <= |hay|
    ensures r.Some? ==> from <= r.value && OccursAt(hay, needle, r.value)
    ensures forall j :: from <= j && (r.None? || j < r.value) ==> !OccursAt(hay, needle, j)
    decreases |hay| - from
  {
    if from + |needle| <= |hay| && hay[from..from + |needle|] == needle then Some(from)
    else if from == |hay| then None
    else FindFrom(hay, needle, from + 1)
  }

  /** strstr: the first occurrence of `needle` in the string `buf` holds,
      or None (the NULL the C function returns) when it holds none. */
  function StrStr(buf: seq<char>, needle: seq<char>): (r: Option<nat>)
    requires NUL in buf
    ensures r.Some? <==> exists j :: OccursAt(CStr(buf), needle, j)
    ensures r.Some? ==> OccursAt(CStr(buf), needle, r.value) &&
                        forall j :: 0 <= j < r.value ==> !OccursAt(CStr(buf), needle, j)
  {
    FindFrom(CStr(buf), needle, 0)
  }

  /** `s` with every `c` removed and the other characters in their order. */
  function Remove(s: seq<char>, c: char): (r: seq<char>)
    ensures |r| <= |s|
  {
    if s == [] then []
    else Remove(s[..|s| - 1], c) + (if s[|s| - 1] == c then [] else [s[|s| - 1]])
  }

  lemma {:induction false} RemoveAppend(s: seq<char>, t: seq<char>, c: char)
    ensures Remove(s + t, c) == Remove(s, c) + Remove(t, c)
    decreases |t|
  {
    if t != [] {
      assert (s + t)[..|s + t| - 1] == s + t[..|t| - 1];
      RemoveAppend(s, t[..|t| - 1], c);
    } else {
      assert s + t == s;
    }
  }

  lemma {:induction false} RemoveAbsent(s: seq<char>, c: char)
    requires c !in s
    ensures Remove(s, c) == s
  {
    if s != [] {
      assert c !in s[..|s| - 1];
      RemoveAbsent(s[..|s| - 1], c);
    }
  }

  /** What the removal keeps comes from `s` and is not `c`. */
  lemma {:induction false} RemoveOnlyFrom(s: seq<char>, c: char)
    ensures forall x :: x in Remove(s, c) ==> x in s && x != c
  {
    if s != [] {
      RemoveOnlyFrom(s[..|s| - 1], c);
    }
  }

  /** The removal keeps every other character, as many times as it occurred. */
  lemma {:induction false} RemoveKeepsOthers(s: seq<char>, c: char)
    ensures multiset(Remove(s, c)) == multiset(s)[c := 0]
  {
    if s != [] {
      var init, last := s[..|s| - 1], s[|s| - 1];
      assert s == init + [last];
      RemoveKeepsOthers(init, c);
    }
  }

  lemma RemoveIdempotent(s: seq<char>, c: char)
    ensures Remove(Remove(s, c), c) == Remove(s, c)
  {
    RemoveOnlyFrom(s, c);
    RemoveAbsent(Remove(s, c), c);
  }

  /** Removing two characters one after the other gives the same string in
      either order. */
  lemma {:induction false} RemoveCommutes(s: seq<char>, a: char, b: char)
    ensures Remove(Remove(s, a), b) == Remove(Remove(s, b), a)
  {
    if s != [] {
      var init, last := s[..|s| - 1], s[|s| - 1];
      RemoveCommutes(init, a, b);
      RemoveAppend(Remove(init, a), if last == a then [] else [last], b);
      RemoveAppend(Remove(init, b), if last == b then [] else [last], a);
    }
  }

  /** One step of delchar: the characters from k up to the next `c` at j are
      kept, that `c` is dropped. */
  lemma RemoveThrough(s: seq<char>, k: nat, j: nat, c: char)
    requires k <= j < |s| && s[j] == c && c !in s[k..j]
    ensures Remove(s[..j + 1], c) == Remove(s[..k], c) + s[k..j]
  {
    assert s[..j + 1][..j] == s[..j];
    assert s[..j] == s[..k] + s[k..j];
    RemoveAppend(s[..k], s[k..j], c);
    RemoveAbsent(s[k..j], c);
  }

  function Nuls(n: nat): (r: seq<char>)
    ensures |r| == n && forall i :: 0 <= i < n ==> r[i] == NUL
  {
    seq(n, _ => NUL)
  }

  /** The buffer delchar leaves: the string with every `c` removed, the
      positions it no longer uses up to the old terminator filled with NUL,
      and everything after the old terminator untouched. */
  function Deleted(buf: seq<char>, c: char): (r: seq<char>)
    requires NUL in buf
    ensures |r| == |buf|
  {
    var n := StrLen(buf);
    var kept := Remove(buf[..n], c);
    kept + Nuls(n - |kept|) + buf[n..]
  }

  lemma DeletedAt(buf: seq<char>, c: char, n: nat)
    requires NUL in buf && n == StrLen(buf)
    ensures Deleted(buf, c) == Remove(buf[..n], c) + Nuls(n - |Remove(buf[..n], c)|) + buf[n..]
  {
  }

  /** delchar shortens the string it is given to that string with `c`
      removed, and keeps the buffer's size. */
  lemma DeletedString(buf: seq<char>, c: char)
    requires NUL in buf
    ensures |Deleted(buf, c)| == |buf|
    ensures NUL in Deleted(buf, c) && CStr(Deleted(buf, c)) == Remove(CStr(buf), c)
  {
    var n := StrLen(buf);
    var kept := Remove(buf[..n], c);
    DeletedAt(buf, c, n);
    RemoveOnlyFrom(buf[..n], c);
    assert NUL !in kept;
    var rest := Nuls(n - |kept|) + buf[n..];
    assert rest[0] == NUL;
    StrLenOfTerminated(kept, rest);
    assert Deleted(buf, c) == kept + rest;
  }

  /** Running delchar twice with the same character changes nothing more. */
  lemma DeletedIdempotent(buf: seq<char>, c: char)
    requires NUL in buf
    ensures NUL in Deleted(buf, c) && Deleted(Deleted(buf, c), c) == Deleted(buf, c)
  {
    var n := StrLen(buf);
    var kept := Remove(buf[..n], c);
    var rest := Nuls(n - |kept|) + buf[n..];
    DeletedAt(buf, c, n);
    assert Deleted(buf, c) == kept + rest;
    RemoveOnlyFrom(buf[..n], c);
    RemoveIdempotent(buf[..n], c);
    assert rest[0] == NUL;
    DeletedKept(kept, rest, c);
  }

  /** A buffer whose string holds no `c` is left as it is. */
  lemma DeletedKept(kept: seq<char>, rest: seq<char>, c: char)
    requires NUL !in kept && rest != [] && rest[0] == NUL && Remove(kept, c) == kept
    ensures NUL in kept + rest && Deleted(kept + rest, c) == kept + rest
  {
    var once := kept + rest;
    assert once[|kept|] == NUL;
    StrLenOfTerminated(kept, rest);
    assert once[..|kept|] == kept && once[|kept|..] == rest;
    DeletedAt(once, c, |kept|);
    assert Nuls(0) == [];
  }

  /** strchr for a character other than NUL: the position of the first `c`
      in the string that starts at `from`, or None when it holds no `c`. */
  method StrChr(a: array<char>, from: nat, c: char) returns (r: Option<nat>)
    requires from <= a.Length && NUL in a[from..] && c != NUL
    ensures r.Some? ==> from <= r.value < a.Length && a[r.value] == c &&
                        forall i :: from <= i < r.value ==> a[i] != NUL && a[i] != c
    ensures r.None? ==> forall i :: from <= i < from + StrLen(a[from..]) ==> a[i] != c
  {
    var i := from;
    while a[i] != NUL && a[i] != c
      invariant from <= i < a.Length && NUL in a[i..]
      invariant forall x :: from <= x < i ==> a[x] != NUL && a[x] != c
      decreases a.Length - i
    {
      assert a[i..] == [a[i]] + a[i + 1..];
      i := i + 1;
    }
    if a[i] == c {
      r := Some(i);
    } else {
      assert NUL !in a[from..i] by {
        forall x | 0 <= x < i - from ensures a[from..i][x] != NUL {
          assert a[from + x] != NUL;
        }
      }
      StrLenOfTerminated(a[from..i], a[i..]);
      assert a[from..] == a[from..i] + a[i..];
      r := None;
    }
  }

  /** strlen on the string that starts at `from`. */
  method Length(a: array<char>, from: nat) returns (n: nat)
    requires from <= a.Length && NUL in a[from..]
    ensures n == StrLen(a[from..]) && from + n < a.Length
  {
    ghost var t := a[from..];
    n := 0;
    while a[from + n] != NUL
      invariant from + n < a.Length && NUL in t[n..]
      invariant forall i :: 0 <= i < n ==> t[i] != NUL
      decreases a.Length - from - n
    {
      assert t[n..] == [t[n]] + t[n + 1..];
      n := n + 1;
    }
    assert NUL !in t[..n] by {
      forall i | 0 <= i < n ensures t[..n][i] != NUL {
        assert t[..n][i] == t[i];
      }
    }
    StrLenOfTerminated(t[..n], t[n..]);
    assert t == t[..n] + t[n..];
  }

  /** memmove(buf + dst, buf + dst + 1, len) on a buffer's contents: the
      window [dst, dst + len) takes the characters one place to its right. */
  function Shifted(t: seq<char>, dst: nat, len: nat): seq<char>
    requires dst + len < |t|
  {
    t[..dst] + t[dst + 1..dst + len + 1] + t[dst + len..]
  }

  lemma ShiftedAt(t: seq<char>, dst: nat, len: nat)
    requires dst + len < |t|
    ensures |Shifted(t, dst, len)| == |t|
    ensures forall i :: 0 <= i < |t| ==>
              Shifted(t, dst, len)[i] == if dst <= i < dst + len then t[i + 1] else t[i]
  {
  }

  /** memmove(a + dst, a + dst + 1, len). */
  method ShiftLeft(a: array<char>, dst: nat, len: nat)
    requires dst + len < a.Length
    modifies a
    ensures a[..] == Shifted(old(a[..]), dst, len)
  {
    var i := dst;
    while i < dst + len
      invariant dst <= i <= dst + len
      invariant forall k :: 0 <= k < a.Length ==>
                  a[k] == if dst <= k < i then old(a[k + 1]) else old(a[k])
    {
      a[i] := a[i + 1];
      i := i + 1;
    }
    ShiftedAt(old(a[..]), dst, len);
  }

  /** The buffer delchar's loop holds once it has examined the first k
      characters of the original string `s`: those characters with `c`
      removed, the unexamined rest of the string, one NUL for every `c`
      removed so far, and the untouched tail from the old terminator on. */
  ghost function Partial(s: seq<char>, c: char, k: nat): seq<char>
    requires NUL in s && k <= StrLen(s)
  {
    var n := StrLen(s);
    var kept := Remove(s[..k], c);
    kept + s[k..n] + Nuls(k - |kept|) + s[n..]
  }

  /** The loop state for k, written out. */
  lemma PartialAt(s: seq<char>, c: char, k: nat, n: nat)
    requires NUL in s && n == StrLen(s) && k <= n
    ensures Partial(s, c, k) == Remove(s[..k], c) + s[k..n] + Nuls(k - |Remove(s[..k], c)|) + s[n..]
  {
  }

  /** A loop state in pieces: with p characters kept, the kept prefix, the
      unexamined rest of the string up to its terminator at m = p + n - k,
      then NULs and the old tail. */
  ghost predicate Pieces(s: seq<char>, c: char, k: nat, n: nat, p: nat, m: nat, t: seq<char>)
  {
    p <= k <= n <= |s| && m == p + n - k && |t| == |s| && m < |t| &&
    t[..p] == Remove(s[..k], c) && t[p..m] == s[k..n] &&
    t[m..] == Nuls(k - p) + s[n..] && t[m] == NUL && NUL !in s[k..n]
  }

  lemma PartialParts(s: seq<char>, c: char, k: nat, n: nat, p: nat, m: nat, t: seq<char>)
    requires NUL in s && n == StrLen(s) && k <= n
    requires p == |Remove(s[..k], c)| && m == p + n - k && t == Partial(s, c, k)
    ensures Pieces(s, c, k, n, p, m, t)
  {
    var kept := Remove(s[..k], c);
    assert t == kept + s[k..n] + (Nuls(k - p) + s[n..]);
    assert (Nuls(k - p) + s[n..])[0] == NUL;
    assert s[k..n] == s[..n][k..];
  }

  lemma PartialStart(s: seq<char>, c: char)
    requires NUL in s
    ensures Partial(s, c, 0) == s && |Remove(s[..0], c)| == 0
  {
    var n := StrLen(s);
    assert s == s[..0] + s[0..n] + Nuls(0) + s[n..];
  }

  /** From any point q of the string in the buffer, the string runs up to
      its terminator at m. */
  lemma PartialLength(s: seq<char>, c: char, k: nat, n: nat, p: nat, m: nat, t: seq<char>, q: nat)
    requires Pieces(s, c, k, n, p, m, t) && p <= q <= m
    ensures NUL in t[q..] && StrLen(t[q..]) == m - q
  {
    assert t[q..m] == s[k + (q - p)..n] by {
      assert t[q..m] == t[p..m][q - p..];
    }
    assert NUL !in t[q..m] by {
      assert s[k + (q - p)..n] == s[k..n][q - p..];
    }
    assert t[q..] == t[q..m] + t[m..];
    StrLenOfTerminated(t[q..m], t[m..]);
  }

  /** The `c` strchr finds at j lies in the string, at position e = k + (j - p)
      of the original, with no `c` between k and it. */
  lemma StepFound(s: seq<char>, c: char, k: nat, n: nat, p: nat, m: nat, t: seq<char>, j: nat, e: nat)
    requires Pieces(s, c, k, n, p, m, t) && c != NUL
    requires p <= j < |t| && t[j] == c && e == k + (j - p)
    requires forall i :: p <= i < j ==> t[i] != NUL && t[i] != c
    ensures j < m && e < n && s[e] == c && c !in s[k..e]
    ensures t[..j] == Remove(s[..k], c) + s[k..e]
    ensures t[j + 1..m] == s[e + 1..n]
  {
    assert t[m] == NUL;
    assert t[p..j] == s[k..e] by {
      assert t[p..j] == t[p..m][..j - p];
    }
    assert s[e] == c by {
      assert t[p..m][j - p] == t[j];
    }
    forall i | 0 <= i < j - p ensures t[p..j][i] != c {
      assert t[p..j][i] == t[p + i];
    }
    assert t[..j] == t[..p] + t[p..j];
    assert t[j + 1..m] == t[p..m][j - p + 1..];
  }

  /** Shifting the window [j, m) of a buffer left over the character at j
      brings the character at m into position m - 1. */
  lemma ShiftedPieces(t: seq<char>, j: nat, m: nat)
    requires j < m < |t|
    ensures Shifted(t, j, m - j) == t[..j] + t[j + 1..m] + ([t[m]] + t[m..])
  {
    assert t[j + 1..m + 1] == t[j + 1..m] + [t[m]];
  }

  /** memmove of the string after the `c` at j one place left: the kept
      prefix now runs to j, the rest of the string follows, and the
      terminator moves into the run of NULs. */
  lemma StepShifted(s: seq<char>, c: char, k: nat, n: nat, p: nat, m: nat, t: seq<char>, j: nat, e: nat)
    requires NUL in s && n == StrLen(s) && p <= k <= n && m == p + n - k
    requires p <= j < m < |t| && e == k + (j - p)
    requires t[..j] == Remove(s[..e + 1], c)
    requires t[j + 1..m] == s[e + 1..n]
    requires t[m] == NUL && t[m..] == Nuls(k - p) + s[n..]
    ensures Shifted(t, j, m - j) == Partial(s, c, e + 1)
  {
    ShiftedPieces(t, j, m);
    assert [NUL] + Nuls(k - p) == Nuls(e + 1 - j);
    PartialAt(s, c, e + 1, n);
  }

  /** Once strchr finds `c` at j, memmove of the rest of the string (len
      characters, the terminator included) one place left gives the next
      loop state, with k advanced past that `c`. */
  lemma PartialStep(s: seq<char>, c: char, k: nat, n: nat, p: nat, m: nat, t: seq<char>,
                    j: nat, len: nat, k': nat)
    requires NUL in s && n == StrLen(s) && Pieces(s, c, k, n, p, m, t) && c != NUL
    requires p <= j < |t| && t[j] == c
    requires forall i :: p <= i < j ==> t[i] != NUL && t[i] != c
    requires len == m - j && k' == k + (j - p) + 1
    ensures k' <= n && |Remove(s[..k'], c)| == j && j + len < |t|
    ensures Shifted(t, j, len) == Partial(s, c, k')
  {
    var e := k + (j - p);
    StepFound(s, c, k, n, p, m, t, j, e);
    RemoveThrough(s, k, e, c);
    StepShifted(s, c, k, n, p, m, t, j, e);
  }

  /** With no `c` left in the unexamined rest of the string, the loop
      state is the buffer delchar promises. */
  lemma PartialFinished(s: seq<char>, c: char, k: nat, n: nat)
    requires NUL in s && n == StrLen(s) && k <= n && c !in s[k..n]
    ensures Partial(s, c, k) == Deleted(s, c)
  {
    RemoveAbsent(s[k..n], c);
    assert s[..n] == s[..k] + s[k..n];
    RemoveAppend(s[..k], s[k..n], c);
    DeletedAt(s, c, n);
    PartialAt(s, c, k, n);
  }

  /** When the string from p on holds no `c`, the loop is done. */
  lemma PartialDone(s: seq<char>, c: char, k: nat, n: nat, p: nat, m: nat, t: seq<char>)
    requires NUL in s && n == StrLen(s) && Pieces(s, c, k, n, p, m, t)
    requires forall i :: p <= i < m ==> t[i] != c
    ensures Partial(s, c, k) == Deleted(s, c)
  {
    forall i | 0 <= i < n - k ensures s[k..n][i] != c {
      assert t[p..m][i] == t[p + i];
    }
    PartialFinished(s, c, k, n);
  }

  /** One turn of delchar's loop once strchr has found `c` at j: memmove
      the rest of the string, terminator included, one place left. */
  method DeleteAt(a: array<char>, j: nat, ghost s: seq<char>, c: char, ghost n: nat,
                  ghost p: nat, ghost k: nat) returns (ghost k': nat)
    requires NUL in s && n == StrLen(s) && k <= n && c != NUL
    requires p == |Remove(s[..k], c)| && a[..] == Partial(s, c, k)
    requires p <= j < a.Length && a[j] == c
    requires forall i :: p <= i < j ==> a[i] != NUL && a[i] != c
    modifies a
    ensures k' == k + (j - p) + 1 && k' <= n && |Remove(s[..k'], c)| == j
    ensures a[..] == Partial(s, c, k')
  {
    k' := k + (j - p) + 1;
    ghost var m := p + n - k;
    ghost var t := a[..];
    PartialParts(s, c, k, n, p, m, t);
    StepFound(s, c, k, n, p, m, t, j, k + (j - p));
    PartialLength(s, c, k, n, p, m, t, j);
    assert t[j..] == a[j..];
    var len := Length(a, j);
    PartialStep(s, c, k, n, p, m, t, j, len, k');
    ShiftLeft(a, j, len);
  }

  /** One turn of delchar's loop: strchr from the end of the kept prefix,
      and either the string holds no more `c` and delchar returns, or the
      `c` found is removed. */
  method Turn(a: array<char>, ghost s: seq<char>, c: char, ghost n: nat, p: nat, ghost k: nat)
    returns (done: bool, p': nat, ghost k': nat)
    requires NUL in s && n == StrLen(s) && k <= n && c != NUL
    requires p == |Remove(s[..k], c)| && a[..] == Partial(s, c, k)
    modifies a
    ensures done ==> a[..] == Deleted(s, c)
    ensures !done ==> k < k' <= n && p' == |Remove(s[..k'], c)| && a[..] == Partial(s, c, k')
  {
    ghost var m, t := p + n - k, a[..];
    PartialParts(s, c, k, n, p, m, t);
    PartialLength(s, c, k, n, p, m, t, p);
    assert t[p..] == a[p..];
    var found := StrChr(a, p, c);
    if found.None? {
      PartialDone(s, c, k, n, p, m, t);
      return true, p, k;
    }
    p' := found.value;
    k' := DeleteAt(a, p', s, c, n, p, k);
    done := false;
  }

  /** delchar (fwstitcher.c:349-353): removes every `c` from the string in
      `a`, shifting the rest left one place per removal. With `c` equal to
      NUL the C loop never ends, so NUL is not a character it is given. */
  method DelChar(a: array<char>, c: char)
    requires NUL in a[..] && c != NUL
    modifies a
    ensures a[..] == Deleted(old(a[..]), c)
  {
    ghost var s := a[..];
    ghost var n := StrLen(s);
    PartialStart(s, c);
    var p: nat := 0;
    ghost var k: nat := 0;
    while true
      invariant k <= n && p == |Remove(s[..k], c)| && a[..] == Partial(s, c, k)
      decreases n - k
    {
      var done;
      done, p, k := Turn(a, s, c, n, p, k);
      if done {
        break;
      }
    }
  }
}
