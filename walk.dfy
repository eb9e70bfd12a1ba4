/** The walk of the input directory and the fingerprint fed to MD5. A walk is the
    sequence of `(dirname, filename, size)` triples in the order `os.walk` yields them;
    `size` is what `os.path.getsize` returned for the file at line 56. */
module Walk {
  import opened ByteStrings
  import opened Paths

  datatype Entry = Entry(dirname: Bytes, filename: Bytes, size: nat)

  /** Line 55: `os.path.join(dirname, filename)` */
  function PathOf(e: Entry): Bytes {
    Join(e.dirname, e.filename)
  }

  /** Line 54: `name`, the file name without its extension. */
  function NameOf(e: Entry): Bytes {
    SplitExt(e.filename).0
  }

  /** Line 58 */
  predicate Accepts(e: Entry) {
    IsVectorSource(e.filename)
  }

  /** The accepted entries, in walk order. */
  function Accepted(walk: seq<Entry>): (a: seq<Entry>)
    ensures |a| <= |walk|
  {
    if walk == [] then []
    else Accepted(walk[..|walk| - 1]) + (if Accepts(walk[|walk| - 1]) then [walk[|walk| - 1]] else [])
  }

  /** Every kept entry is accepted. */
  lemma {:induction false} AcceptedAccepts(walk: seq<Entry>)
    ensures forall k :: 0 <= k < |Accepted(walk)| ==> Accepts(Accepted(walk)[k])
  {
    if walk != [] {
      var init := walk[..|walk| - 1];
      AcceptedAccepts(init);
      var a := Accepted(walk);
      forall k | 0 <= k < |a| ensures Accepts(a[k]) {
        if k < |Accepted(init)| {
          assert a[k] == Accepted(init)[k];
        }
      }
    }
  }

  lemma {:induction false} AcceptedAppend(w1: seq<Entry>, w2: seq<Entry>)
    ensures Accepted(w1 + w2) == Accepted(w1) + Accepted(w2)
    decreases |w2|
  {
    if w2 == [] {
      assert w1 + w2 == w1;
    } else {
      var w := w1 + w2;
      var init := w2[..|w2| - 1];
      var tail := if Accepts(w2[|w2| - 1]) then [w2[|w2| - 1]] else [];
      assert w[..|w| - 1] == w1 + init && w[|w| - 1] == w2[|w2| - 1];
      assert Accepted(w) == Accepted(w1 + init) + tail;
      AcceptedAppend(w1, init);
      assert Accepted(w2) == Accepted(init) + tail;
      assert Accepted(w1) + Accepted(init) + tail == Accepted(w1) + (Accepted(init) + tail);
    }
  }

  /** An entry is kept exactly when it was walked and is accepted. */
  lemma {:induction false} AcceptedMembers(walk: seq<Entry>, e: Entry)
    ensures e in Accepted(walk) <==> e in walk && Accepts(e)
  {
    if walk != [] {
      var init := walk[..|walk| - 1];
      AcceptedMembers(init, e);
      assert walk == init + [walk[|walk| - 1]];
    }
  }

  /** A rejected file changes nothing downstream: it is as if it had not been walked. */
  lemma RejectedIgnored(w1: seq<Entry>, r: Entry, w2: seq<Entry>)
    requires !Accepts(r)
    ensures Accepted(w1 + [r] + w2) == Accepted(w1 + w2)
  {
    AcceptedAppend(w1 + [r], w2);
    AcceptedAppend(w1, [r]);
    AcceptedAppend(w1, w2);
    assert [r][..0] == [];
  }

  /** Line 74: what one accepted file feeds to MD5, `filename + str(size) + ';'`. */
  function Record(e: Entry): Bytes {
    e.filename + Decimal(e.size) + ";"
  }

  /** The whole MD5 input: the concatenated records of the accepted entries, in order.
      Successive `update` calls hash the same as one call on the concatenation. */
  function Feed(accepted: seq<Entry>): Bytes {
    if accepted == [] then []
    else Feed(accepted[..|accepted| - 1]) + Record(accepted[|accepted| - 1])
  }

  lemma {:induction false} FeedAppend(a: seq<Entry>, b: seq<Entry>)
    ensures Feed(a + b) == Feed(a) + Feed(b)
    decreases |b|
  {
    if b == [] {
      assert a + b == a;
    } else {
      var ab := a + b;
      var init := b[..|b| - 1];
      var r := Record(b[|b| - 1]);
      assert ab[..|ab| - 1] == a + init && ab[|ab| - 1] == b[|b| - 1];
      assert Feed(ab) == Feed(a + init) + r;
      FeedAppend(a, init);
      assert Feed(b) == Feed(init) + r;
      assert Feed(a) + Feed(init) + r == Feed(a) + (Feed(init) + r);
    }
  }

  /** Each record ends with `;` after the decimal size, so a non-empty feed ends with `;`
      and its length is the sum of the record lengths. */
  lemma {:induction false} FeedShape(a: seq<Entry>)
    ensures a != [] ==> |Feed(a)| > 0 && Feed(a)[|Feed(a)| - 1] == ';'
    ensures |Feed(a)| >= 2 * |a|
  {
    if a != [] {
      FeedShape(a[..|a| - 1]);
    }
  }

  /** The feed depends only on the ordered (filename, size) pairs of the accepted
      entries: not on their directories, and not on what the files hold. */
  lemma {:induction false} FeedNamesAndSizes(a: seq<Entry>, b: seq<Entry>)
    requires |a| == |b|
    requires forall k :: 0 <= k < |a| ==> a[k].filename == b[k].filename && a[k].size == b[k].size
    ensures Feed(a) == Feed(b)
  {
    if a != [] {
      FeedNamesAndSizes(a[..|a| - 1], b[..|b| - 1]);
    }
  }

  /** A record determines the size it was made from. */
  lemma RecordSizeMatters(e: Entry, size: nat)
    ensures Record(e.(size := size)) == Record(e) <==> size == e.size
  {
    var a, b := Record(e.(size := size)), Record(e);
    assert a[|e.filename|..|a| - 1] == Decimal(size);
    assert b[|e.filename|..|b| - 1] == Decimal(e.size);
    DecimalRoundTrip(size);
    DecimalRoundTrip(e.size);
  }

  /** The feed sees every size: changing the size of one accepted file, and nothing
      else, changes the bytes fed to MD5. */
  lemma FeedSeesSize(a: seq<Entry>, j: nat, size: nat)
    requires j < |a|
    ensures Feed(a[j := a[j].(size := size)]) == Feed(a) <==> size == a[j].size
  {
    var e := a[j];
    var e' := e.(size := size);
    var b := a[j := e'];
    var pre, post := a[..j], a[j + 1..];
    assert a == pre + [e] + post;
    assert b == pre + [e'] + post;
    FeedAppend(pre + [e], post);
    FeedAppend(pre, [e]);
    FeedAppend(pre + [e'], post);
    FeedAppend(pre, [e']);
    assert [e][..0] == [] && [e'][..0] == [];
    RecordSizeMatters(e, size);
    CancelMiddle(Feed(pre), Record(e'), Record(e), Feed(post));
  }

  lemma CancelMiddle(x: Bytes, y1: Bytes, y2: Bytes, z: Bytes)
    ensures x + y1 + z == x + y2 + z ==> y1 == y2
  {
    if x + y1 + z == x + y2 + z {
      assert y1 == (x + y1 + z)[|x|..|x| + |y1|];
      assert y2 == (x + y2 + z)[|x|..|x| + |y2|];
    }
  }

  /** The feed of a walk: rejected files do not touch the digest. */
  lemma WalkFeedIgnoresRejected(w1: seq<Entry>, r: Entry, w2: seq<Entry>)
    requires !Accepts(r)
    ensures Feed(Accepted(w1 + [r] + w2)) == Feed(Accepted(w1 + w2))
  {
    RejectedIgnored(w1, r, w2);
  }

  /** The fingerprint is weak: two different walks can feed MD5 the same bytes, since a
      file name may itself hold digits and `;`. */
  lemma FeedCollision(d: Bytes, a: Bytes, b: Bytes, joined: Bytes)
    requires a == "a.svg" && b == "b.svg" && joined == a + "1;" + b
    ensures var two := [Entry(d, a, 1), Entry(d, b, 2)];
            var one := [Entry(d, joined, 2)];
            Accepted(two) == two && Accepted(one) == one && two != one
            && Feed(two) == Feed(one)
  {
    CollisionAccepted(d, a, b, joined);
    CollisionFeeds(d, a, b, joined);
  }

  lemma CollisionAccepted(d: Bytes, a: Bytes, b: Bytes, joined: Bytes)
    requires a == "a.svg" && b == "b.svg" && joined == a + "1;" + b
    ensures Accepted([Entry(d, a, 1), Entry(d, b, 2)]) == [Entry(d, a, 1), Entry(d, b, 2)]
    ensures Accepted([Entry(d, joined, 2)]) == [Entry(d, joined, 2)]
  {
    SvgNameAccepted(a);
    SvgNameAccepted(b);
    JoinedAccepted(a, b, joined);
    var first := [Entry(d, a, 1)];
    assert [Entry(d, a, 1), Entry(d, b, 2)][..1] == first && first[..0] == [] && [Entry(d, joined, 2)][..0] == [];
  }

  lemma JoinedAccepted(a: Bytes, b: Bytes, joined: Bytes)
    requires a == "a.svg" && b == "b.svg" && joined == a + "1;" + b
    ensures IsVectorSource(joined)
  {
    assert joined[|joined| - 4..] == b[1..];
    assert '/' !in joined by {
      forall k | 0 <= k < |joined| ensures joined[k] != '/' {
        if k < 5 { assert joined[k] == a[k]; }
        else if k < 7 { assert joined[k] == "1;"[k - 5]; }
        else { assert joined[k] == b[k - 7]; }
      }
    }
    SvgNameAccepted(joined);
  }

  lemma CollisionFeeds(d: Bytes, a: Bytes, b: Bytes, joined: Bytes)
    requires joined == a + "1;" + b
    ensures Feed([Entry(d, a, 1), Entry(d, b, 2)]) == Feed([Entry(d, joined, 2)])
  {
    OneDigitSizes();
    var first := [Entry(d, a, 1)];
    var two := first + [Entry(d, b, 2)];
    assert two[..1] == first && first[..0] == [] && [Entry(d, joined, 2)][..0] == [];
    assert Record(Entry(d, a, 1)) == a + "1;";
    assert Record(Entry(d, b, 2)) == b + "2;";
    assert Record(Entry(d, joined, 2)) == a + "1;" + b + "2;";
    assert Feed(two) == Feed(first) + Record(Entry(d, b, 2));
  }

  lemma OneDigitSizes()
    ensures Decimal(1) == "1" && Decimal(2) == "2"
  {
  }
}
