/** Substrings, flattening and character access (headers/cpp/ropeimpl.h:634-746, 960-993, 1182-1222). */
module RopeSlice {
  import opened Basics
  import opened RopeTree
  import opened RopeConcat

  /** The part of `s` from `start` up to `endp1`, both clamped to its length. */
  function Slice<C>(s: seq<C>, start: nat, endp1: nat): seq<C> {
    var e := if endp1 >= |s| then |s| else endp1;
    if start >= e then [] else s[start..e]
  }

  /** The cases of a slice, by where its ends lie. */
  lemma SliceIs<C>(s: seq<C>, start: nat, endp1: nat)
    ensures start <= endp1 <= |s| ==> Slice(s, start, endp1) == s[start..endp1]
    ensures start <= |s| < endp1 ==> Slice(s, start, endp1) == s[start..]
    ensures start > |s| || start > endp1 ==> Slice(s, start, endp1) == []
  {
  }

  lemma SliceConcat<C>(a: seq<C>, b: seq<C>, start: nat, endp1: nat)
    requires start < |a| <= endp1
    ensures Slice(a + b, start, endp1) == Slice(a, start, |a|) + Slice(b, 0, endp1 - |a|)
  {
    var e := if endp1 >= |a + b| then |a + b| else endp1;
    assert (a + b)[start..e] == a[start..] + b[..e - |a|];
  }

  /** `now` is the stretch of `text` from `start` to `endp1`, as far as there is one. */
  ghost predicate Piece<C>(text: seq<C>, start: nat, endp1: nat, now: seq<C>) {
    now == Slice(text, start, endp1)
  }

  ghost predicate TwoPieces<C>(a: seq<C>, start: nat, end: nat, b: seq<C>, rest: nat, now: seq<C>) {
    now == Slice(a, start, end) + Slice(b, 0, rest)
  }

  /** A piece of a concatenation is a piece of one part, or made of a piece of each. */
  lemma PieceOfHalves<C>(text: seq<C>, a: seq<C>, b: seq<C>, start: nat, endp1: nat, adjusted: nat, now: seq<C>)
    requires text == a + b && b != [] && adjusted == if endp1 >= |text| then |text| else endp1
    requires adjusted <= |a| ==> Piece(a, start, endp1, now)
    requires adjusted > |a| && start >= |a| ==> Piece(b, start - |a|, adjusted - |a|, now)
    requires adjusted > |a| && start < |a| ==> TwoPieces(a, start, |a|, b, endp1 - |a|, now)
    ensures Piece(text, start, endp1, now)
  {
    if adjusted > |a| && start < |a| {
      SliceConcat(a, b, start, endp1);
    }
  }

  /** A leaf holding the characters that a producer gives for a stretch of positions. */
  function Section<C>(r: Rope<C>, start: nat, len: nat): seq<C>
    requires Wf(r) && !r.Nil? && !r.Concat? && start + len <= Size(r)
  {
    seq(len, i requires 0 <= i < len => CharAt(r, start + i))
  }

  lemma SectionIsSlice<C>(r: Rope<C>, start: nat, len: nat)
    requires Wf(r) && !r.Nil? && !r.Concat? && start + len <= Size(r)
    ensures Section(r, start, len) == Flatten(r)[start..start + len]
  {
    FlattenAt(r);
    assert Flatten(r)[start..start + len] == Section(r, start, len);
  }

  lemma FlattenAt<C>(r: Rope<C>)
    requires Wf(r) && !r.Nil? && !r.Concat?
    ensures forall i :: 0 <= i < Size(r) ==> Flatten(r)[i] == CharAt(r, i)
  {
  }

  /** A lazy substring of a base that is a leaf or a function. */
  lemma LazyIsSlice<C>(base: Rope<C>, start: nat, len: nat)
    requires Wf(base) && (base.Leaf? || base.Function?) && len > 0 && start + len <= Size(base)
    ensures Wf(Substring(base, start, len))
    ensures Flatten(Substring(base, start, len)) == Flatten(base)[start..start + len]
  {
    var r := Substring(base, start, len);
    FlattenAt(r);
    FlattenAt(base);
    assert Flatten(r) == Flatten(base)[start..start + len];
  }

  /** `_S_substring`: the text of the result is the clamped slice, whatever the representation. */
  method SubstringOf<C>(base: Rope<C>, start: nat, endp1: nat) returns (r: Rope<C>)
    requires Wf(base) && Size(base) <= MAX_SIZE && Depth(base) <= MAX_DEPTH
    ensures Wf(r) && Piece(Flatten(base), start, endp1, Flatten(r)) && Depth(r) <= MAX_DEPTH
    decreases base
  {
    if base.Nil? {
      return Nil;
    }
    var len := Size(base);
    var adjusted := if endp1 >= len then len else endp1;
    if endp1 >= len && start == 0 {
      return base;
    }
    if base.Concat? {
      r := SubstringOfConcat(base, start, endp1, adjusted);
    } else if start >= adjusted {
      return Nil;
    } else {
      r := SubstringOfFlat(base, start, adjusted - start);
    }
  }

  method SubstringOfConcat<C>(base: Rope<C>, start: nat, endp1: nat, adjusted: nat) returns (r: Rope<C>)
    requires Wf(base) && base.Concat? && Size(base) <= MAX_SIZE && Depth(base) <= MAX_DEPTH
    requires adjusted == if endp1 >= Size(base) then Size(base) else endp1
    ensures Wf(r) && Piece(Flatten(base), start, endp1, Flatten(r)) && Depth(r) <= MAX_DEPTH
    decreases base, 1
  {
    var left, right := base.left, base.right;
    var leftLen := Size(left);
    SizePositive(right);
    if adjusted <= leftLen {
      r := SubstringOf(left, start, endp1);
    } else if start >= leftLen {
      r := SubstringOf(right, start - leftLen, adjusted - leftLen);
    } else {
      r := SubstringOfBoth(base, start, leftLen, endp1 - leftLen);
    }
    PieceOfHalves(Flatten(base), Flatten(left), Flatten(right), start, endp1, adjusted, Flatten(r));
  }

  /** A piece of each part, put together. */
  method SubstringOfBoth<C>(base: Rope<C>, start: nat, leftLen: nat, rest: nat) returns (r: Rope<C>)
    requires Wf(base) && base.Concat? && Size(base) <= MAX_SIZE && Depth(base) <= MAX_DEPTH
    ensures Wf(r) && Depth(r) <= MAX_DEPTH
    ensures TwoPieces(Flatten(base.left), start, leftLen, Flatten(base.right), rest, Flatten(r))
    decreases base, 0
  {
    var l := SubstringOf(base.left, start, leftLen);
    var q := SubstringOf(base.right, 0, rest);
    r := ConcatRopes(l, q);
  }

  /** The cases of `_S_substring` below a concatenation: short pieces are copied, long ones stay lazy. */
  method SubstringOfFlat<C>(base: Rope<C>, start: nat, len: nat) returns (r: Rope<C>)
    requires Wf(base) && !base.Nil? && !base.Concat? && len > 0 && start + len <= Size(base)
    ensures Wf(r) && Flatten(r) == Flatten(base)[start..start + len] && Depth(r) == 0
  {
    SectionIsSlice(base, start, len);
    match base {
      case Leaf(data) =>
        if len > LAZY_THRESHOLD {
          LazyIsSlice(base, start, len);
          r := Substring(base, start, len);
        } else {
          r := Leaf(data[start..start + len]);
        }
      case Substring(old_, from, _) =>
        if len > LAZY_THRESHOLD {
          LazyIsSlice(old_, start + from, len);
          NestedSlice(base, start, len);
          r := Substring(old_, start + from, len);
        } else {
          r := Leaf(Section(base, start, len));
        }
      case Function(_, _) =>
        if len > LAZY_THRESHOLD {
          LazyIsSlice(base, start, len);
          r := Substring(base, start, len);
        } else {
          r := Leaf(Section(base, start, len));
        }
    }
  }

  /** A slice of a lazy slice is a slice of its base. */
  lemma NestedSlice<C>(r: Rope<C>, start: nat, len: nat)
    requires Wf(r) && r.Substring? && start + len <= Size(r)
    ensures Flatten(r)[start..start + len] == Flatten(r.base)[start + r.start..start + r.start + len]
  {
    LazyIsSlice(r.base, r.start, r.len);
    SliceOfSlice(Flatten(r.base), r.start, Flatten(r), start, len);
  }

  /** `_S_fetch`: the character of the text at a position, by a walk down the tree. */
  method Fetch<C>(root: Rope<C>, pos: nat) returns (c: C)
    requires Wf(root) && pos < Size(root)
    ensures c == Flatten(root)[pos]
  {
    var r := root;
    var i: nat := pos;
    while r.Concat?
      invariant Wf(r) && !r.Nil? && i < Size(r) && Flatten(r)[i] == Flatten(root)[pos]
      decreases r
    {
      var leftLen := Size(r.left);
      assert Flatten(r) == Flatten(r.left) + Flatten(r.right);
      if i >= leftLen {
        i := i - leftLen;
        r := r.right;
      } else {
        r := r.left;
      }
    }
    FlattenAt(r);
    c := CharAt(r, i);
  }

  /** `_S_flatten` into a buffer: exactly the text is written, and the end position is returned. */
  method FlattenInto<C>(r: Rope<C>, buffer: array<C>, at: nat) returns (end: nat)
    requires Wf(r) && at + Size(r) <= buffer.Length
    modifies buffer
    ensures end == at + Size(r) && Written(old(buffer[..]), at, Flatten(r), buffer[..])
    decreases r
  {
    if r.Nil? {
      NothingWritten(buffer[..], at);
      return at;
    }
    if r.Concat? {
      end := FlattenBoth(r, buffer, at);
    } else {
      end := CopyFlat(r, buffer, at);
    }
  }

  method FlattenBoth<C>(r: Rope<C>, buffer: array<C>, at: nat) returns (end: nat)
    requires Wf(r) && r.Concat? && at + Size(r) <= buffer.Length
    modifies buffer
    ensures end == at + Size(r) && Written(old(buffer[..]), at, Flatten(r), buffer[..])
    decreases r, 0
  {
    ghost var was := buffer[..];
    end := FlattenInto(r.left, buffer, at);
    ghost var mid := buffer[..];
    end := FlattenInto(r.right, buffer, end);
    WrittenTwice(was, at, Flatten(r.left), mid, Flatten(r.right), buffer[..]);
  }

  /** The text `x` is in the buffer from `at` on; the rest is as it was. */
  ghost predicate Written<C>(was: seq<C>, at: nat, x: seq<C>, now: seq<C>) {
    at + |x| <= |was| && now == was[..at] + x + was[at + |x|..]
  }

  lemma NothingWritten<C>(was: seq<C>, at: nat)
    requires at <= |was|
    ensures Written(was, at, [], was)
  {
  }

  lemma WrittenTwice<C>(was: seq<C>, at: nat, x: seq<C>, mid: seq<C>, y: seq<C>, now: seq<C>)
    requires Written(was, at, x, mid) && Written(mid, at + |x|, y, now)
    ensures Written(was, at, x + y, now)
  {
    assert mid[..at + |x|] == was[..at] + x;
    assert mid[at + |x| + |y|..] == was[at + |x| + |y|..];
  }

  method CopyFlat<C>(r: Rope<C>, buffer: array<C>, at: nat) returns (end: nat)
    requires Wf(r) && !r.Nil? && !r.Concat? && at + Size(r) <= buffer.Length
    modifies buffer
    ensures end == at + Size(r) && Written(old(buffer[..]), at, Flatten(r), buffer[..])
  {
    FlattenAt(r);
    end := at;
    while end < at + Size(r)
      invariant at <= end <= at + Size(r)
      invariant buffer[..at] == old(buffer[..at]) && buffer[end..] == old(buffer[end..])
      invariant buffer[at..end] == Flatten(r)[..end - at]
    {
      buffer[end] := CharAt(r, end - at);
      end := end + 1;
    }
    assert buffer[..] == buffer[..at] + buffer[at..end] + buffer[end..];
  }
}
