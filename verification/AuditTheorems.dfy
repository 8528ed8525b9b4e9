/** What the chain guarantees: no rearrangement passes, and equal heads mean equal
    logs up to an explicit hash collision. */
module AuditTheorems {
  import opened Wrappers
  import opened CanonicalJson
  import opened JsonTheorems
  import opened Audit

  // ----- The chain condition

  /** Entry number i + 1 of a verified log. */
  ghost predicate Linked(lib: Library, es: seq<Entry>, i: nat)
    requires i < |es|
  {
    var e := es[i];
    && SEQUENCE in e && e[SEQUENCE] == JInt(i + 1)
    && HasText(e, EVENT) && HasText(e, TIMESTAMP)
    && HasHash(e, PREVIOUS_HASH) && e[PREVIOUS_HASH].text == HeadHash(es[..i])
    && HasHash(e, ENTRY_HASH) && e[ENTRY_HASH].text == lib.EntryHash(Body(e))
  }

  ghost predicate Chain(lib: Library, es: seq<Entry>) {
    forall i :: 0 <= i < |es| ==> Linked(lib, es, i)
  }

  /** The hash the next entry must name. */
  function HeadAfter(previous: string, es: seq<Entry>): string {
    if es == [] then previous else HeadHash(es)
  }

  lemma HeadAfterCons(previous: string, e: Entry, rest: seq<Entry>)
    requires HasHash(e, ENTRY_HASH)
    ensures HeadAfter(previous, [e] + rest) == HeadAfter(e[ENTRY_HASH].text, rest)
  {
    if rest != [] {
      assert ([e] + rest)[|rest|] == rest[|rest| - 1];
    }
  }

  function Join(first: Option<seq<Entry>>, second: Option<seq<Entry>>): Option<seq<Entry>> {
    if first == None || second == None then None else Some(first.value + second.value)
  }

  lemma JoinAssociative(e: Entry, rest: Option<seq<Entry>>, second: Option<seq<Entry>>)
    ensures Join(Some([e]), Join(rest, second)) == Join(Join(Some([e]), rest), second)
  {
    if rest.Some? && second.Some? {
      assert [e] + (rest.value + second.value) == ([e] + rest.value) + second.value;
    }
  }

  /** Verifying a list of lines is verifying its parts one after the other. */
  lemma {:induction false} VerifySplits(lib: Library, lines: seq<string>, more: seq<string>, n: int, previous: string)
    ensures
      var first := VerifyFrom(lib, lines, n, previous);
      VerifyFrom(lib, lines + more, n, previous)
        == if first == None then None
           else Join(first, VerifyFrom(lib, more, n + |lines|, HeadAfter(previous, first.value)))
  {
    hide CheckLine, HasHash, HeadAfter;
    if lines == [] {
      assert lines + more == more;
      var second := VerifyFrom(lib, more, n, previous);
      assert second.Some? ==> [] + second.value == second.value;
      HeadAfterNothing(previous);
    } else {
      assert (lines + more)[0] == lines[0] && (lines + more)[1..] == lines[1..] + more;
      CheckedHasHash(lib, lines[0], n, previous);
      var e := CheckLine(lib, lines[0], n, previous);
      if e.Some? {
        HashIsText(e.value);
        var hash := e.value[ENTRY_HASH].text;
        VerifySplits(lib, lines[1..], more, n + 1, hash);
        var rest := VerifyFrom(lib, lines[1..], n + 1, hash);
        if rest.Some? {
          HeadAfterCons(previous, e.value, rest.value);
          JoinAssociative(e.value, rest, VerifyFrom(lib, more, n + |lines|, HeadAfter(hash, rest.value)));
        }
      }
    }
  }

  lemma HeadAfterNothing(previous: string)
    ensures HeadAfter(previous, []) == previous
  {
  }

  lemma HashIsText(e: Entry)
    requires HasHash(e, ENTRY_HASH)
    ensures ENTRY_HASH in e && e[ENTRY_HASH].JString?
  {
  }

  /** Verified lines are the canonical lines of a chain. */
  lemma {:induction false} VerifiedIsChain(lib: Library, lines: seq<string>)
    requires VerifyLines(lib, lines).Some?
    ensures
      var es := VerifyLines(lib, lines).value;
      && |es| == |lines| && Chain(lib, es)
      && forall i :: 0 <= i < |es| ==> lines[i] == Serialize(es[i])
  {
    hide Serialize, HasText, HasHash;
    if lines != [] {
      var init, last := lines[..|lines| - 1], lines[|lines| - 1];
      assert lines == init + [last];
      VerifySplits(lib, init, [last], 1, GENESIS_HASH);
      VerifiedIsChain(lib, init);
      var es := VerifyLines(lib, init).value;
      var all := VerifyLines(lib, lines).value;
      SingleLine(lib, last, |lines|, HeadHash(es));
      assert all == es + [all[|es|]];
      forall i | 0 <= i < |all| ensures Linked(lib, all, i) {
        assert all[..i] == es[..i];
        if i < |es| {
          assert Linked(lib, es, i);
        }
      }
    }
  }

  lemma SingleLine(lib: Library, line: string, n: int, previous: string)
    ensures VerifyFrom(lib, [line], n, previous)
         == match CheckLine(lib, line, n, previous) case None => None case Some(e) => Some([e])
  {
    hide CheckLine;
    CheckedHasHash(lib, line, n, previous);
    assert [line][1..] == [];
    var e := CheckLine(lib, line, n, previous);
    assert e.Some? ==> [e.value] + [] == [e.value];
  }

  lemma LinesReadBack(lib: Library, lines: seq<string>, line: string)
    requires VerifyLines(lib, lines).Some?
    ensures
      var es := VerifyLines(lib, lines).value;
      var checked := CheckLine(lib, line, |lines| + 1, HeadHash(es));
      |es| == |lines|
      && (checked.Some? ==> VerifyLines(lib, lines + [line]) == Some(es + [checked.value]))
  {
    hide CheckLine, VerifyFrom, HeadHash;
    VerifiedIsChain(lib, lines);
    VerifySplits(lib, lines, [line], 1, GENESIS_HASH);
    SingleLine(lib, line, |lines| + 1, HeadHash(VerifyLines(lib, lines).value));
    EmptyHead();
  }

  lemma NoLines(lib: Library)
    ensures VerifyLines(lib, []) == Some([])
  {
  }

  lemma EmptyHead()
    ensures HeadHash([]) == GENESIS_HASH
  {
  }

  lemma LinkedIsChecked(lib: Library, es: seq<Entry>, i: nat)
    requires lib.Sound() && Chain(lib, es) && i < |es|
    ensures CheckLine(lib, Serialize(es[i]), i + 1, HeadHash(es[..i])) == Some(es[i])
  {
    hide HasText, HasHash, PrintMembers, HeadHash;
    assert Linked(lib, es, i);
    assert Serialize(es[i]) != "";
  }

  /** Verification succeeds exactly on the canonical lines of chains. */
  lemma {:induction false} VerifiesExactlyChains(lib: Library, lines: seq<string>, es: seq<Entry>)
    requires lib.Sound()
    ensures VerifyLines(lib, lines) == Some(es) <==>
      (|es| == |lines| && Chain(lib, es) && forall i :: 0 <= i < |es| ==> lines[i] == Serialize(es[i]))
  {
    hide VerifyLines, Serialize, CheckLine, HeadHash, Linked;
    if VerifyLines(lib, lines) == Some(es) {
      VerifiedIsChain(lib, lines);
    }
    if |es| == |lines| && Chain(lib, es) && forall i :: 0 <= i < |es| ==> lines[i] == Serialize(es[i]) {
      if es == [] {
        NoLines(lib);
      } else {
        var n := |es| - 1;
        PrefixChain(lib, es, n);
        VerifiesExactlyChains(lib, lines[..n], es[..n]);
        LinkedIsChecked(lib, es, n);
        LinesReadBack(lib, lines[..n], lines[n]);
        assert lines == lines[..n] + [lines[n]] && es == es[..n] + [es[n]];
      }
    }
  }

  /** The assumptions on the foreign functions can be met: canonical text
      determines the entry. */
  lemma SoundLibraryExists()
    ensures exists lib: Library :: lib.Sound()
  {
    hide Serialize, IsHash;
    var loads := (t: string) =>
      if exists e: Entry :: Serialize(e) == t then (var e: Entry :| Serialize(e) == t; Some(JObject(e))) else None;
    var lib := Library(loads, t => GENESIS_HASH);
    forall e: Entry ensures loads(Serialize(e)) == Some(JObject(e)) {
      forall f: Entry | Serialize(f) == Serialize(e) ensures f == e {
        SerializeIsInjective(f, e);
      }
    }
    GenesisIsHash();
    assert lib.Sound();
  }

  lemma GenesisIsHash()
    ensures IsHash(GENESIS_HASH)
  {
  }

  lemma SerializeIsInjective(f: Entry, e: Entry)
    requires Serialize(f) == Serialize(e)
    ensures f == e
  {
    hide Print;
    assert Print(JObject(f)) + "" == Print(JObject(e)) + "";
    PrintUnique(JObject(f), JObject(e), "", "");
  }

  // ----- Rearrangements

  /** The lines drawn from a log by a list of positions: dropped, repeated and
      reordered at will. */
  function Drawn(lines: seq<string>, positions: seq<nat>): (r: seq<string>)
    requires forall i :: 0 <= i < |positions| ==> positions[i] < |lines|
    ensures |r| == |positions|
  {
    seq(|positions|, i requires 0 <= i < |positions| => lines[positions[i]])
  }

  lemma LineHasOneSequence(lib: Library, lines: seq<string>, others: seq<string>, i: nat, j: nat)
    requires VerifyLines(lib, lines).Some? && VerifyLines(lib, others).Some?
    requires i < |lines| && j < |others| && lines[i] == others[j]
    ensures i == j
  {
    hide VerifyLines, HasText, HasHash;
    VerifiedLoads(lib, lines, i);
    VerifiedLoads(lib, others, j);
  }

  lemma {:induction false} VerifiedLoads(lib: Library, lines: seq<string>, i: nat)
    requires VerifyLines(lib, lines).Some? && i < |lines|
    ensures
      var parsed := lib.loads(lines[i]);
      parsed.Some? && parsed.value.JObject? && SEQUENCE in parsed.value.fields
      && parsed.value.fields[SEQUENCE] == JInt(i + 1)
  {
    hide HasText, HasHash;
    var prefix := lines[..i];
    assert lines == prefix + lines[i..];
    VerifySplits(lib, prefix, lines[i..], 1, GENESIS_HASH);
    assert lines[i..][0] == lines[i];
  }

  /** Lines drawn in any way from a verified log verify exactly when they are a
      prefix of it. Nothing is assumed about the hash. */
  lemma OnlyPrefixesVerify(lib: Library, lines: seq<string>, positions: seq<nat>)
    requires VerifyLines(lib, lines).Some?
    requires forall i :: 0 <= i < |positions| ==> positions[i] < |lines|
    ensures VerifyLines(lib, Drawn(lines, positions)).Some?
        <==> (|positions| <= |lines| && Drawn(lines, positions) == lines[..|positions|])
  {
    hide VerifyLines;
    var drawn := Drawn(lines, positions);
    if VerifyLines(lib, drawn).Some? {
      forall i | 0 <= i < |positions| ensures positions[i] == i {
        LineHasOneSequence(lib, lines, drawn, positions[i], i);
      }
      assert |positions| > 0 ==> positions[|positions| - 1] < |lines|;
    }
    if |positions| <= |lines| && drawn == lines[..|positions|] {
      PrefixVerifies(lib, lines, |positions|);
    }
  }

  lemma PrefixVerifies(lib: Library, lines: seq<string>, n: nat)
    requires VerifyLines(lib, lines).Some? && n <= |lines|
    ensures VerifyLines(lib, lines[..n]).Some?
  {
    assert lines == lines[..n] + lines[n..];
    VerifySplits(lib, lines[..n], lines[n..], 1, GENESIS_HASH);
  }

  // ----- Collisions

  lemma EntryFromBody(e: Entry, f: Entry)
    requires ENTRY_HASH in e && ENTRY_HASH in f && e[ENTRY_HASH] == f[ENTRY_HASH] && Body(e) == Body(f)
    ensures e == f
  {
    assert e == Body(e)[ENTRY_HASH := e[ENTRY_HASH]];
    assert f == Body(f)[ENTRY_HASH := f[ENTRY_HASH]];
  }

  lemma PrefixChain(lib: Library, es: seq<Entry>, n: nat)
    requires Chain(lib, es) && n <= |es|
    ensures Chain(lib, es[..n])
  {
    forall i | 0 <= i < n ensures Linked(lib, es[..n], i) {
      assert es[..n][..i] == es[..i];
      assert Linked(lib, es, i);
    }
  }

  /** Two different chains with the same head hash: walking back from the heads
      finds two different entry bodies with the same hash. */
  lemma {:induction false} FindCollision(lib: Library, es: seq<Entry>, fs: seq<Entry>) returns (x: Entry, y: Entry)
    requires Chain(lib, es) && Chain(lib, fs) && es != [] && fs != [] && es != fs
    requires HeadHash(es) == HeadHash(fs)
    ensures x != y && lib.EntryHash(x) == lib.EntryHash(y)
    ensures x in Bodies(es) && y in Bodies(fs)
    decreases |es|
  {
    hide HasText, IsHash, Serialize;
    var e, f := es[|es| - 1], fs[|fs| - 1];
    assert Linked(lib, es, |es| - 1) && Linked(lib, fs, |fs| - 1);
    if Body(e) != Body(f) {
      x, y := Body(e), Body(f);
      assert Bodies(es)[|es| - 1] == x && Bodies(fs)[|fs| - 1] == y;
    } else {
      EntryFromBody(e, f);
      assert |es| == |fs|;
      var n := |es| - 1;
      assert es == es[..n] + [e] && fs == fs[..n] + [f];
      PrefixChain(lib, es, n);
      PrefixChain(lib, fs, n);
      x, y := FindCollision(lib, es[..n], fs[..n]);
      BodiesOfPrefix(es, n, x);
      BodiesOfPrefix(fs, n, y);
    }
  }

  /** It is a collision of SHA-256 itself: two different texts with one digest. */
  lemma FindTextCollision(lib: Library, es: seq<Entry>, fs: seq<Entry>) returns (s: string, t: string)
    requires Chain(lib, es) && Chain(lib, fs) && es != [] && fs != [] && es != fs
    requires HeadHash(es) == HeadHash(fs)
    ensures s != t && lib.sha(s) == lib.sha(t)
  {
    hide Chain, HeadHash, Print;
    var x, y := FindCollision(lib, es, fs);
    s, t := Serialize(x), Serialize(y);
    if s == t {
      SerializeIsInjective(x, y);
    }
  }

  function Bodies(es: seq<Entry>): (r: seq<Entry>)
    ensures |r| == |es|
  {
    seq(|es|, i requires 0 <= i < |es| => Body(es[i]))
  }

  lemma BodiesOfPrefix(es: seq<Entry>, n: nat, x: Entry)
    requires n <= |es| && x in Bodies(es[..n])
    ensures x in Bodies(es)
  {
    var i :| 0 <= i < n && Bodies(es[..n])[i] == x;
    assert Bodies(es)[i] == x;
  }

  /** No body of the one log collides with a different body of the other. */
  ghost predicate CollisionFree(lib: Library, es: seq<Entry>, fs: seq<Entry>) {
    forall x, y :: x in Bodies(es) && y in Bodies(fs) && lib.EntryHash(x) == lib.EntryHash(y) ==> x == y
  }

  /** Without a collision the head hash determines the whole verified log, line
      by line. */
  lemma HeadDeterminesLog(lib: Library, lines: seq<string>, others: seq<string>)
    requires VerifyLines(lib, lines).Some? && VerifyLines(lib, others).Some?
    requires CollisionFree(lib, VerifyLines(lib, lines).value, VerifyLines(lib, others).value)
    requires lines != [] && others != []
    requires HeadHash(VerifyLines(lib, lines).value) == HeadHash(VerifyLines(lib, others).value)
    ensures lines == others
  {
    hide VerifyLines, Chain, HeadHash;
    VerifiedIsChain(lib, lines);
    VerifiedIsChain(lib, others);
    var es, fs := VerifyLines(lib, lines).value, VerifyLines(lib, others).value;
    if es != fs {
      var x, y := FindCollision(lib, es, fs);
      assert false;
    }
    assert forall i :: 0 <= i < |lines| ==> lines[i] == others[i];
  }

  lemma HeadIsHash(lib: Library, es: seq<Entry>)
    requires Chain(lib, es)
    ensures IsHash(HeadHash(es))
  {
    if es != [] {
      assert Linked(lib, es, |es| - 1);
    }
  }
}
