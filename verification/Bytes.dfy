/** Text as the parser and printer see it: sequences of bytes, addressed by position. */
module Bytes {

  type Byte = x: int | 0 <= x < 256
  type Text = seq<Byte>

  /** The text `t` stands in `doc` from position `pos`. */
  predicate HasAt(doc: Text, pos: nat, t: Text) {
    pos + |t| <= |doc| && doc[pos..pos + |t|] == t
  }

  lemma HasAtBound(doc: Text, pos: nat, t: Text)
    requires HasAt(doc, pos, t)
    ensures pos + |t| <= |doc|
  {
  }

  lemma HasAtSplit(doc: Text, pos: nat, a: Text, b: Text)
    requires HasAt(doc, pos, a + b)
    ensures HasAt(doc, pos, a) && HasAt(doc, pos + |a|, b)
  {
    var piece := doc[pos..pos + |a + b|];
    assert piece[..|a|] == a && piece[|a|..] == b;
  }

  lemma HasAtIndex(doc: Text, pos: nat, t: Text, k: nat)
    requires HasAt(doc, pos, t) && k < |t|
    ensures doc[pos + k] == t[k]
  {
    assert doc[pos..pos + |t|][k] == t[k];
  }

  lemma HasAtHead(doc: Text, pos: nat, t: Text)
    requires HasAt(doc, pos, t) && t != []
    ensures pos < |doc| && doc[pos] == t[0] && HasAt(doc, pos + 1, t[1..])
  {
    assert t == [t[0]] + t[1..];
    HasAtSplit(doc, pos, [t[0]], t[1..]);
    HasAtIndex(doc, pos, t, 0);
  }

  /** The order of object keys: bytewise, a proper prefix first (memcmp, then length). */
  predicate KeyLess(a: Text, b: Text) {
    if b == [] then false
    else if a == [] then true
    else if a[0] != b[0] then a[0] < b[0]
    else KeyLess(a[1..], b[1..])
  }

  /** The texts agree on `k` bytes, and then the first ends or has the smaller byte. */
  ghost predicate DiffersAt(a: Text, b: Text, k: nat) {
    k <= |a| && k < |b| && a[..k] == b[..k] && (k < |a| ==> a[k] < b[k])
  }

  lemma PrefixHead(a: Text, b: Text, k: nat)
    ensures 0 < k <= |a| && k <= |b| && a[..k] == b[..k] ==> a[0] == b[0]
  {
    if 0 < k <= |a| && k <= |b| {
      assert a[..k][0] == a[0] && b[..k][0] == b[0];
    }
  }

  lemma {:induction false} KeyLessIs(a: Text, b: Text)
    ensures KeyLess(a, b) <==> exists k: nat :: DiffersAt(a, b, k)
  {
    if a == [] || b == [] || a[0] != b[0] {
      if b != [] && (a == [] || a[0] < b[0]) {
        assert DiffersAt(a, b, 0);
      }
      if k: nat :| DiffersAt(a, b, k) {
        PrefixHead(a, b, k);
      }
    } else {
      KeyLessIs(a[1..], b[1..]);
      if k: nat :| DiffersAt(a[1..], b[1..], k) {
        var next := k + 1;
        assert a[..next] == [a[0]] + a[1..][..k] && b[..next] == [b[0]] + b[1..][..k];
        assert DiffersAt(a, b, next);
      }
      if k: nat :| DiffersAt(a, b, k) {
        var before := k - 1;
        assert a[1..][..before] == a[..k][1..] && b[1..][..before] == b[..k][1..];
        assert DiffersAt(a[1..], b[1..], before);
      }
    }
  }

  lemma {:induction false} KeyLessTransitive(a: Text, b: Text, c: Text)
    requires KeyLess(a, b) && KeyLess(b, c)
    ensures KeyLess(a, c)
  {
    if a != [] && a[0] == b[0] && b[0] == c[0] {
      KeyLessTransitive(a[1..], b[1..], c[1..]);
    }
  }

  lemma {:induction false} KeyLessTotal(a: Text, b: Text)
    ensures a == b ==> !KeyLess(a, b)
    ensures a != b ==> KeyLess(a, b) != KeyLess(b, a)
  {
    if a != [] && b != [] && a[0] == b[0] {
      assert a == [a[0]] + a[1..] && b == [b[0]] + b[1..];
      KeyLessTotal(a[1..], b[1..]);
    }
  }
}
