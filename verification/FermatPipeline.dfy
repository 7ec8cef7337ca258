/** The Fermat pipeline of xpmclient.cpp: two buffers that change roles every round, and a check
    kernel whose threads finish in any order. */
module FermatPipeline {
  import opened Bits

  /** fermat_t: a candidate and the position of its chain that is tested next. */
  datatype Candidate = Candidate(index: nat, hashid: nat, origin: nat, kind: nat, chainpos: nat)

  /** The candidate as the sieve found it. */
  function Start(c: Candidate): Candidate { c.(chainpos := 0) }

  /** How often a sequence has the candidate o, at whatever position of its chain. */
  function Count(s: seq<Candidate>, o: Candidate): nat
  {
    if |s| == 0 then 0 else Count(s[..|s| - 1], o) + if Start(s[|s| - 1]) == o then 1 else 0
  }

  lemma {:induction false} CountJoin(s: seq<Candidate>, t: seq<Candidate>, o: Candidate)
    ensures Count(s + t, o) == Count(s, o) + Count(t, o)
    decreases |t|
  {
    if |t| == 0 {
      assert s + t == s;
    } else {
      CountJoin(s, t[..|t| - 1], o);
      assert (s + t)[..|s + t| - 1] == s + t[..|t| - 1];
    }
  }

  lemma CountRemoved(s: seq<Candidate>, k: nat, o: Candidate)
    requires k < |s|
    ensures Count(s, o) == Count(s[..k] + s[k + 1..], o) + Count([s[k]], o)
  {
    assert s == s[..k] + ([s[k]] + s[k + 1..]);
    CountJoin(s[..k], [s[k]] + s[k + 1..], o);
    CountJoin([s[k]], s[k + 1..], o);
    CountJoin(s[..k], s[k + 1..], o);
  }

  /** What a Fermat kernel answered about a candidate at a position of its chain. */
  datatype Answer = Answer(candidate: Candidate, passed: bool)

  /** The answers of one round, whose thread k wrote results[k] about s[k]. */
  ghost function Answers(s: seq<Candidate>, results: seq<nat>): set<Answer>
    requires |s| <= |results|
  {
    set k | 0 <= k < |s| :: Answer(s[k], results[k] == 1)
  }

  /** The candidate has been found to pass at every position before its own. */
  ghost predicate Sound(c: Candidate, answers: set<Answer>)
  {
    forall p :: 0 <= p < c.chainpos ==> Answer(c.(chainpos := p), true) in answers
  }

  ghost predicate AllSound(s: seq<Candidate>, answers: set<Answer>, depth: nat)
  {
    forall i :: 0 <= i < |s| ==> Sound(s[i], answers) && s[i].chainpos < depth
  }

  /** Candidates that ended by passing at every position below depth. */
  ghost predicate Finished(s: seq<Candidate>, answers: set<Answer>, depth: nat)
  {
    forall i :: 0 <= i < |s| ==> Sound(s[i], answers) && s[i].chainpos == depth
  }

  /** Candidates that ended at the first position where they failed. */
  ghost predicate Failed(s: seq<Candidate>, answers: set<Answer>, depth: nat)
  {
    forall i :: 0 <= i < |s| ==> Sound(s[i], answers) && s[i].chainpos < depth && Answer(s[i], false) in answers
  }

  /** The new candidates of the first n sieves, in their order. */
  ghost function Found(sieveBuffers: seq<array<Candidate>>, avail: seq<nat>, n: nat): seq<Candidate>
    reads sieveBuffers
    requires n <= |avail| == |sieveBuffers| && forall i :: 0 <= i < |avail| ==> avail[i] <= sieveBuffers[i].Length
  {
    if n == 0 then [] else Found(sieveBuffers, avail, n - 1) + sieveBuffers[n - 1][..avail[n - 1]]
  }

  /** clEnqueueCopyBuffer */
  method CopyBuffer(src: array<Candidate>, from: nat, dst: array<Candidate>, to: nat, n: nat)
    requires src != dst && from + n <= src.Length && to + n <= dst.Length
    modifies dst
    ensures dst[..to + n] == old(dst[..to]) + src[from..from + n]
  {
    var i := 0;
    while i < n
      invariant 0 <= i <= n && dst[..to] == old(dst[..to]) && dst[to..to + i] == src[from..from + i]
    {
      dst[to + i] := src[from + i];
      i := i + 1;
    }
    assert dst[..to + n] == dst[..to] + dst[to..to + n];
  }

  class PrimeMiner {
    const mBlockSize: nat
    const mDepth: nat
    const info: seq<array<Candidate>>        // the two buffers
    const count: array<nat>                  // and how many candidates each holds
    var bsize: nat                           // how many of the last round's were tested
    var ridx: nat                            // the buffer that was read in the last round
    ghost var answers: set<Answer>           // all that the Fermat kernels answered
    ghost var admitted: seq<Candidate>
    ghost var finals: seq<Candidate>
    ghost var dropped: seq<Candidate>

    ghost predicate Allocated()
      reads this
    {
      mBlockSize > 0 && mDepth > 0 && |info| == 2 && info[0] != info[1] && info[0].Length == info[1].Length
      && count.Length == 2 && ridx < 2
    }

    /** What waits for the next round: the candidates not tested in the last one, and its survivors. */
    ghost function Waiting(): seq<Candidate>
      reads this, count, info
      requires Allocated() && bsize <= count[ridx] <= info[0].Length && count[1 - ridx] <= info[0].Length
    {
      info[1 - ridx][..count[1 - ridx]] + info[ridx][bsize..count[ridx]]
    }

    ghost predicate Valid()
      reads this, count, info
    {
      Allocated() && bsize <= count[ridx] <= info[0].Length && count[1 - ridx] <= info[0].Length
      && bsize % mBlockSize == 0
      && AllSound(Waiting(), answers, mDepth) && Finished(finals, answers, mDepth) && Failed(dropped, answers, mDepth)
      && forall o :: Count(Waiting(), o) + Count(finals, o) + Count(dropped, o) == Count(admitted, o)
    }

    /** FermatInit. The first round of Mining reads buffer 0. */
    constructor (blockSize: nat, depth: nat, mfs: nat)
      requires blockSize > 0 && depth > 0
      ensures Valid() && ridx == 1 && answers == {} && admitted == [] && finals == [] && dropped == [] && Waiting() == []
      ensures mBlockSize == blockSize && mDepth == depth && info[0].Length == mfs
      ensures fresh(info[0]) && fresh(info[1]) && fresh(count)
    {
      mBlockSize, mDepth := blockSize, depth;
      var none := Candidate(0, 0, 0, 0, 0);
      var a := new Candidate[mfs](_ => none);
      var b := new Candidate[mfs](_ => none);
      info := [a, b];
      count := new nat[2](_ => 0);
      bsize, ridx := 0, 1;
      answers, admitted, finals, dropped := {}, [], [], [];
    }

    /** The reset of Mining when new work arrives: everything pending is discarded. */
    method Reset()
      requires Allocated()
      modifies this`bsize, this`admitted, this`finals, this`dropped, count
      ensures Valid() && admitted == [] && finals == [] && dropped == [] && Waiting() == [] && ridx == old(ridx)
    {
      bsize := 0;
      count[0] := 0;
      count[1] := 0;
      admitted, finals, dropped := [], [], [];
    }

    /** FermatDispatch: one round, in which the buffer written last time is read. The new candidates
        of all sieves are admitted once; those tested are the largest multiple of the block size. */
    method FermatDispatch(r: nat, w: nat, sieveBuffers: seq<array<Candidate>>, avail: array<nat>,
                          results: seq<nat>, testCount0: nat)
      returns (testCount: nat)
      requires Valid() && |results| == info[0].Length && r < 2 && r != ridx && w == ridx
      requires avail != count && avail.Length == |sieveBuffers|
      requires forall i :: 0 <= i < |sieveBuffers| ==>
                 sieveBuffers[i] !in info && avail[i] <= sieveBuffers[i].Length
                 && forall k :: 0 <= k < avail[i] ==> sieveBuffers[i][k].chainpos == 0
      requires |Waiting()| + |Found(sieveBuffers, avail[..], |sieveBuffers|)| <= info[0].Length
      modifies this`bsize, this`ridx, this`answers, this`admitted, this`finals, this`dropped, count, info[0], info[1], avail
      ensures Valid() && ridx == r
      ensures admitted == old(admitted) + old(Found(sieveBuffers, avail[..], |sieveBuffers|))
      ensures testCount == testCount0 + |old(Found(sieveBuffers, avail[..], |sieveBuffers|))|
      ensures forall i :: 0 <= i < avail.Length ==> avail[i] == 0
      ensures count[r] == |old(Waiting())| + |old(Found(sieveBuffers, avail[..], |sieveBuffers|))|
      ensures bsize == if count[r] > mBlockSize then count[r] - count[r] % mBlockSize else 0
      ensures old(finals) <= finals && old(dropped) <= dropped
      ensures bsize <= count[r] <= info[r].Length && answers == old(answers) + Answers(info[r][..bsize], results)
    {
      hide Found, Count, AllSound, Finished, Failed;
      ghost var waiting, found := Waiting(), Found(sieveBuffers, avail[..], |sieveBuffers|);
      FoundSound(sieveBuffers, avail[..], |sieveBuffers|, answers, mDepth);
      TakeOver(r, w);
      testCount := Admit(r, sieveBuffers, avail, testCount0);
      SoundJoin(waiting, found, answers, mDepth);
      forall o ensures Count(waiting + found, o) + Count(finals, o) + Count(dropped, o) == Count(admitted, o) {
        CountJoin(waiting, found, o);
        CountJoin(old(admitted), found, o);
      }
      RunTests(r, w, results);
    }

    /** The third step: the largest multiple of the block size is tested, if there are enough. */
    method RunTests(r: nat, w: nat, results: seq<nat>)
      requires Allocated() && |results| == info[0].Length && r < 2 && w == 1 - r && count[r] <= info[r].Length
      requires AllSound(info[r][..count[r]], answers, mDepth) && Finished(finals, answers, mDepth) && Failed(dropped, answers, mDepth)
      requires forall o :: Count(info[r][..count[r]], o) + Count(finals, o) + Count(dropped, o) == Count(admitted, o)
      modifies this`bsize, this`ridx, this`answers, this`finals, this`dropped, count, info[w]
      ensures Valid() && ridx == r && count[r] == old(count[r])
      ensures bsize == if count[r] > mBlockSize then count[r] - count[r] % mBlockSize else 0
      ensures old(finals) <= finals && old(dropped) <= dropped
      ensures bsize <= count[r] && answers == old(answers) + Answers(info[r][..bsize], results)
    {
      hide Count, AllSound, Finished, Failed;
      ghost var all := info[r][..count[r]];
      count[w] := 0;
      bsize := 0;
      ridx := r;
      assert info[w][..count[w]] == [];
      if count[r] > mBlockSize {
        bsize := count[r] - count[r] % mBlockSize;
        WholeBlocks(count[r], mBlockSize);
        assert info[r][..bsize] == all[..bsize];
        SoundParts(all, bsize, answers, mDepth);
        CheckKernel(r, w, results);
        MoreAnswers(all, old(finals), old(dropped), old(answers), Answers(all[..bsize], results), mDepth);
      }
      SoundParts(all, bsize, answers, mDepth);
      assert info[r][bsize..count[r]] == all[bsize..];
      SoundNothing(answers, mDepth);
      SoundJoin(info[w][..count[w]], all[bsize..], answers, mDepth);
      forall o ensures Count(Waiting(), o) + Count(finals, o) + Count(dropped, o) == Count(admitted, o) {
        CountJoin(info[w][..count[w]], all[bsize..], o);
        CountJoin(all[..bsize], all[bsize..], o);
        assert all == all[..bsize] + all[bsize..];
        NoCount(o);
        if bsize == 0 { assert all[..0] == []; }
      }
    }

    /** The first step of a round: what was not tested joins the survivors. The unsigned difference
        does not wrap around. */
    method TakeOver(r: nat, w: nat)
      requires Valid() && r < 2 && r != ridx && w == ridx && |Waiting()| <= info[0].Length
      modifies info[r], count
      ensures Allocated() && count[r] == |old(Waiting())| && info[r][..count[r]] == old(Waiting())
    {
      assert r == 1 - ridx;
      var left := count[w] - bsize;
      if left > 0 {
        CopyBuffer(info[w], bsize, info[r], count[r], left);
        assert info[r][..count[r] + left] == old(info[r][..count[r]]) + old(info[w][bsize..count[w]]);
        count[r] := count[r] + left;
      }
    }

    /** The second step: the candidates of the sieves are admitted. */
    method Admit(r: nat, sieveBuffers: seq<array<Candidate>>, avail: array<nat>, testCount0: nat) returns (testCount: nat)
      requires Allocated() && r < 2 && count[r] <= info[r].Length
      requires avail != count && avail.Length == |sieveBuffers|
      requires forall i :: 0 <= i < |sieveBuffers| ==> sieveBuffers[i] !in info && avail[i] <= sieveBuffers[i].Length
      requires count[r] + |Found(sieveBuffers, avail[..], |sieveBuffers|)| <= info[r].Length
      modifies this`admitted, count, info[r], avail
      ensures var found := old(Found(sieveBuffers, avail[..], |sieveBuffers|));
              count[r] == old(count[r]) + |found| <= info[r].Length && info[r][..count[r]] == old(info[r][..count[r]]) + found
              && admitted == old(admitted) + found && testCount == testCount0 + |found|
      ensures forall i :: 0 <= i < avail.Length ==> avail[i] == 0
    {
      hide Found;
      ghost var avail0, before, admitted0 := avail[..], info[r][..count[r]], admitted;
      ghost var found: seq<Candidate> := [];
      testCount := testCount0;
      var i := 0;
      FoundNone(sieveBuffers, avail0);
      while i < |sieveBuffers|
        invariant 0 <= i <= |sieveBuffers| && found == Found(sieveBuffers, avail0, i)
        invariant forall k :: 0 <= k < i ==> avail[k] == 0
        invariant forall k :: i <= k < avail.Length ==> avail[k] == avail0[k]
        invariant count[r] == |before + found| <= info[r].Length && info[r][..count[r]] == before + found
        invariant admitted == admitted0 + found && testCount == testCount0 + |found|
      {
        FoundGrows(sieveBuffers, avail0, i + 1, |sieveBuffers|);
        FoundNext(sieveBuffers, avail0, i);
        testCount := AdmitOne(r, sieveBuffers[i], avail, i, testCount);
        found := found + sieveBuffers[i][..avail0[i]];
        i := i + 1;
      }
    }

    /** The candidates of one sieve. */
    method AdmitOne(r: nat, sieveBuffer: array<Candidate>, avail: array<nat>, i: nat, testCount0: nat) returns (testCount: nat)
      requires Allocated() && r < 2 && i < avail.Length && avail != count && sieveBuffer !in info
      requires avail[i] <= sieveBuffer.Length && count[r] + avail[i] <= info[r].Length
      modifies this`admitted, count, info[r], avail
      ensures avail[i] == 0 && forall k :: 0 <= k < avail.Length && k != i ==> avail[k] == old(avail[k])
      ensures var found := sieveBuffer[..old(avail[i])];
              count[r] == old(count[r]) + |found| && info[r][..count[r]] == old(info[r][..count[r]]) + found
              && admitted == old(admitted) + found && testCount == testCount0 + |found|
    {
      testCount := testCount0;
      if avail[i] != 0 {
        CopyBuffer(sieveBuffer, 0, info[r], count[r], avail[i]);
        count[r] := count[r] + avail[i];
        admitted := admitted + sieveBuffer[..avail[i]];
        testCount := testCount + avail[i];
        avail[i] := 0;
      } else {
        assert sieveBuffer[..old(avail[i])] == [];
      }
    }

    /** check_fermat on the first bsize candidates: each thread looks at one result; a candidate that
        passed moves on by one position, and leaves for the final buffer at position depth. Threads may
        finish in any order. */
    method CheckKernel(r: nat, w: nat, results: seq<nat>)
      requires Allocated() && r < 2 && w == 1 - r && bsize <= count[r] <= info[r].Length && count[w] == 0
      requires bsize <= |results|
      requires AllSound(info[r][..bsize], answers, mDepth) && Finished(finals, answers, mDepth) && Failed(dropped, answers, mDepth)
      modifies this`answers, this`finals, this`dropped, count, info[w]
      ensures count[r] == old(count[r]) && count[w] <= bsize
      ensures answers == old(answers) + Answers(info[r][..bsize], results)
      ensures AllSound(info[w][..count[w]], answers, mDepth) && Finished(finals, answers, mDepth) && Failed(dropped, answers, mDepth)
      ensures old(finals) <= finals && old(dropped) <= dropped
      ensures forall o :: Count(info[w][..count[w]], o) + Count(finals, o) + Count(dropped, o)
                       == Count(info[r][..bsize], o) + Count(old(finals), o) + Count(old(dropped), o)
    {
      hide Count, AllSound, Finished, Failed;
      var running, result := info[r][..bsize], results[..bsize];
      assert Answers(running, result) == Answers(running, results);
      MoreAnswers(running, finals, dropped, answers, Answers(running, result), mDepth);
      answers := answers + Answers(running, result);
      assert info[w][..count[w]] == [];
      SoundNothing(answers, mDepth);
      forall o ensures Count(info[w][..count[w]], o) == 0 { NoCount(o); }
      while running != []
        invariant count[r] == old(count[r]) && count[w] + |running| <= bsize && |result| == |running|
        invariant answers == old(answers) + Answers(info[r][..bsize], results) && Answers(running, result) <= answers
        invariant AllSound(running, answers, mDepth) && AllSound(info[w][..count[w]], answers, mDepth)
        invariant Finished(finals, answers, mDepth) && Failed(dropped, answers, mDepth)
        invariant old(finals) <= finals && old(dropped) <= dropped
        invariant forall o :: Count(running, o) + Count(info[w][..count[w]], o) + Count(finals, o) + Count(dropped, o)
                           == Count(info[r][..bsize], o) + Count(old(finals), o) + Count(old(dropped), o)
        decreases |running|
      {
        var id: nat :| id < |running|;
        ghost var before, out, ended, lost := running, info[w][..count[w]], finals, dropped;
        SoundWithout(running, id, answers, mDepth);
        AnswersWithout(running, result, id);
        CheckOne(w, running[id], result[id]);
        running := running[..id] + running[id + 1..];
        result := result[..id] + result[id + 1..];
        forall o ensures Count(running, o) + Count(info[w][..count[w]], o) + Count(finals, o) + Count(dropped, o)
                      == Count(before, o) + Count(out, o) + Count(ended, o) + Count(lost, o)
        {
          CountRemoved(before, id, o);
        }
      }
      forall o ensures Count(running, o) == 0 { NoCount(o); }
    }

    /** One thread of check_fermat. */
    method CheckOne(w: nat, c: Candidate, result: nat)
      requires Allocated() && w < 2 && count[w] < info[w].Length && Answer(c, result == 1) in answers
      requires AllSound([c], answers, mDepth) && AllSound(info[w][..count[w]], answers, mDepth)
      requires Finished(finals, answers, mDepth) && Failed(dropped, answers, mDepth)
      modifies this`finals, this`dropped, count, info[w]
      ensures count[1 - w] == old(count[1 - w]) && old(count[w]) <= count[w] <= old(count[w]) + 1
      ensures AllSound(info[w][..count[w]], answers, mDepth) && Finished(finals, answers, mDepth) && Failed(dropped, answers, mDepth)
      ensures old(finals) <= finals && old(dropped) <= dropped
      ensures forall o :: Count(info[w][..count[w]], o) + Count(finals, o) + Count(dropped, o)
                       == Count([c], o) + Count(old(info[w][..count[w]]), o) + Count(old(finals), o) + Count(old(dropped), o)
    {
      hide Count, Sound;
      ghost var out, ended, lost := info[w][..count[w]], finals, dropped;
      assert [c][0] == c;
      var next := c.(chainpos := c.chainpos + 1);
      if result == 1 {
        OneFurther(c, answers);
        if next.chainpos < mDepth {
          info[w][count[w]] := next;
          count[w] := count[w] + 1;
          assert info[w][..count[w]] == out + [next];
        } else {
          finals := finals + [next];
        }
      } else {
        dropped := dropped + [c];
      }
      forall o ensures Count(info[w][..count[w]], o) + Count(finals, o) + Count(dropped, o)
                    == Count([c], o) + Count(out, o) + Count(ended, o) + Count(lost, o)
      {
        CountOne(c, o);
        CountJoin(out, [next], o);
        CountJoin(ended, [next], o);
        CountJoin(lost, [c], o);
      }
    }
  }

  lemma SoundWithout(s: seq<Candidate>, k: nat, answers: set<Answer>, depth: nat)
    requires k < |s| && AllSound(s, answers, depth)
    ensures AllSound([s[k]], answers, depth) && AllSound(s[..k] + s[k + 1..], answers, depth)
  {
    hide Sound;
  }

  lemma AnswersWithout(s: seq<Candidate>, results: seq<nat>, k: nat)
    requires k < |s| == |results|
    ensures Answer(s[k], results[k] == 1) in Answers(s, results)
    ensures Answers(s[..k] + s[k + 1..], results[..k] + results[k + 1..]) <= Answers(s, results)
  {}

  /** Further answers take nothing back. */
  lemma MoreAnswers(s: seq<Candidate>, t: seq<Candidate>, u: seq<Candidate>, answers: set<Answer>, more: set<Answer>, depth: nat)
    requires AllSound(s, answers, depth) && Finished(t, answers, depth) && Failed(u, answers, depth)
    ensures AllSound(s, answers + more, depth) && Finished(t, answers + more, depth) && Failed(u, answers + more, depth)
  {}

  lemma CountOne(c: Candidate, o: Candidate)
    ensures Count([c.(chainpos := c.chainpos + 1)], o) == Count([c], o)
  {}

  lemma OneFurther(c: Candidate, answers: set<Answer>)
    requires Sound(c, answers) && Answer(c, true) in answers
    ensures Sound(c.(chainpos := c.chainpos + 1), answers)
  {
    assert c.(chainpos := c.chainpos) == c;
  }

  lemma {:induction false} FoundGrows(sieveBuffers: seq<array<Candidate>>, avail: seq<nat>, m: nat, n: nat)
    requires m <= n <= |avail| == |sieveBuffers| && forall i :: 0 <= i < |avail| ==> avail[i] <= sieveBuffers[i].Length
    ensures |Found(sieveBuffers, avail, m)| <= |Found(sieveBuffers, avail, n)|
  {
    if m < n { FoundGrows(sieveBuffers, avail, m, n - 1); }
  }

  lemma FoundNone(sieveBuffers: seq<array<Candidate>>, avail: seq<nat>)
    requires |avail| == |sieveBuffers| && forall i :: 0 <= i < |avail| ==> avail[i] <= sieveBuffers[i].Length
    ensures Found(sieveBuffers, avail, 0) == []
  {}

  lemma FoundNext(sieveBuffers: seq<array<Candidate>>, avail: seq<nat>, n: nat)
    requires n < |avail| == |sieveBuffers| && forall i :: 0 <= i < |avail| ==> avail[i] <= sieveBuffers[i].Length
    ensures Found(sieveBuffers, avail, n + 1) == Found(sieveBuffers, avail, n) + sieveBuffers[n][..avail[n]]
  {}

  /** New candidates are at position 0, so nothing is claimed about them yet. */
  lemma {:induction false} FoundSound(sieveBuffers: seq<array<Candidate>>, avail: seq<nat>, n: nat, answers: set<Answer>, depth: nat)
    requires n <= |avail| == |sieveBuffers| && depth > 0
    requires forall i :: 0 <= i < |avail| ==>
               avail[i] <= sieveBuffers[i].Length && forall k :: 0 <= k < avail[i] ==> sieveBuffers[i][k].chainpos == 0
    ensures AllSound(Found(sieveBuffers, avail, n), answers, depth)
  {
    if n > 0 { FoundSound(sieveBuffers, avail, n - 1, answers, depth); }
  }

  lemma SoundJoin(s: seq<Candidate>, t: seq<Candidate>, answers: set<Answer>, depth: nat)
    requires AllSound(s, answers, depth) && AllSound(t, answers, depth)
    ensures AllSound(s + t, answers, depth)
  {
    hide Sound;
  }

  lemma SoundParts(s: seq<Candidate>, n: nat, answers: set<Answer>, depth: nat)
    requires AllSound(s, answers, depth) && n <= |s|
    ensures AllSound(s[..n], answers, depth) && AllSound(s[n..], answers, depth)
  {
    hide Sound;
  }

  lemma SoundNothing(answers: set<Answer>, depth: nat)
    ensures AllSound([], answers, depth)
  {}

  lemma NoCount(o: Candidate)
    ensures Count([], o) == 0
  {}

  lemma WholeBlocks(n: nat, block: nat)
    requires n > block > 0
    ensures 0 < n - n % block <= n && (n - n % block) % block == 0
  {
    var q := n / block;
    assert n - n % block == block * q;
    MultipleRem(block, q);
  }

  lemma MultipleRem(block: nat, q: nat)
    requires block > 0
    ensures block * q % block == 0
  {
    QuotRemUnique(block * q, block, q, 0);
    QuotIsDiv(block * q, block);
  }

  /** o passes at every position below depth. */
  ghost predicate PassesAll(o: Candidate, passes: Candidate -> bool, depth: nat)
  {
    forall p :: 0 <= p < depth ==> passes(o.(chainpos := p))
  }

  lemma {:induction false} CountedIsThere(s: seq<Candidate>, o: Candidate) returns (i: nat)
    requires Count(s, o) > 0
    ensures i < |s| && Start(s[i]) == o
  {
    var n := |s| - 1;
    if Start(s[n]) == o { i := n; } else { i := CountedIsThere(s[..n], o); }
  }

  /** The kernels answered as passes says. */
  ghost predicate Agree(answers: set<Answer>, passes: Candidate -> bool)
  {
    forall a <- answers :: a.passed == passes(a.candidate)
  }

  /** Where the kernels answered as passes says, that alone decides which end a candidate comes to:
      those that pass everywhere are never dropped, and the others never become final. */
  lemma EndsAreRight(miner: PrimeMiner, o: Candidate, passes: Candidate -> bool)
    requires miner.Valid() && Agree(miner.answers, passes)
    ensures Count(miner.finals, o) > 0 ==> PassesAll(o, passes, miner.mDepth)
    ensures Count(miner.dropped, o) > 0 ==> !PassesAll(o, passes, miner.mDepth)
    ensures |miner.Waiting()| == 0 ==>
              Count(miner.admitted, o) == if PassesAll(o, passes, miner.mDepth) then Count(miner.finals, o) else Count(miner.dropped, o)
  {
    if Count(miner.finals, o) > 0 {
      var i := CountedIsThere(miner.finals, o);
      var c := miner.finals[i];
      forall p | 0 <= p < miner.mDepth ensures passes(o.(chainpos := p)) {
        assert o.(chainpos := p) == c.(chainpos := p);
        assert Answer(c.(chainpos := p), true) in miner.answers;
      }
    }
    if Count(miner.dropped, o) > 0 {
      var i := CountedIsThere(miner.dropped, o);
      var c := miner.dropped[i];
      assert o.(chainpos := c.chainpos) == c;
      assert Answer(c, false) in miner.answers;
    }
    NoCount(o);
  }
}
