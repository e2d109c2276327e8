/** The return analysis of blocks, and which matches always run one of their cases. */
module ReturnAnalysis {
  import opened Wrappers
  import opened Statements

  /** `block_guarantees_return`. */
  predicate BlockReturns(block: seq<Stmt>)
    decreases block, 2
  {
    if block == [] then false
    else if block[0].Return? then true
    else if block[0].If? then ChainReturns(block) || BlockReturns(AfterChain(block[1..]))
    else (block[0].Match? && MatchReturns(block[0].cases)) || BlockReturns(block[1..])
  }

  /** Every branch of the chain at the start returns, and the chain ends in an `else`. */
  predicate ChainReturns(block: seq<Stmt>)
    requires block != [] && block[0].If?
    decreases block, 1
  {
    BlockReturns(block[0].body) && BranchesReturn(block[1..])
  }

  predicate BranchesReturn(tail: seq<Stmt>)
    decreases tail, 1
  {
    && tail != []
    && if tail[0].Elif? then BlockReturns(tail[0].body) && BranchesReturn(tail[1..])
       else tail[0].Else? && BlockReturns(tail[0].body)
  }

  /** There are cases and every one returns. */
  predicate MatchReturns(cases: seq<Stmt>)
    decreases cases, 1
  {
    cases != [] && CasesReturn(cases)
  }

  predicate CasesReturn(cases: seq<Stmt>)
    decreases cases, 0
  {
    cases == [] || (cases[0].Case? && BlockReturns(cases[0].body) && CasesReturn(cases[1..]))
  }

  lemma Rest<T>(s: seq<T>, at: nat)
    requires at < |s|
    ensures s[at..] == [s[at]] + s[at + 1..] && s[at..][0] == s[at] && s[at..][1..] == s[at + 1..]
  {
  }

  lemma BlockStep(block: seq<Stmt>)
    requires block != []
    ensures
      var here := block[0].Return? || (block[0].If? && ChainReturns(block))
        || (block[0].Match? && MatchReturns(block[0].cases));
      BlockReturns(block) == (here || BlockReturns(if block[0].If? then AfterChain(block[1..]) else block[1..]))
  {
  }

  lemma BranchStep(tail: seq<Stmt>)
    requires tail != [] && (tail[0].Elif? || tail[0].Else?)
    ensures BranchesReturn(tail) == (BlockReturns(tail[0].body) && (tail[0].Else? || BranchesReturn(tail[1..])))
    ensures BranchCount(tail) == if tail[0].Else? then 1 else 1 + BranchCount(tail[1..])
  {
  }

  method BlockGuaranteesReturn(body: seq<Stmt>) returns (always: bool)
    ensures always == BlockReturns(body)
    decreases body, 2
  {
    var i := 0;
    ghost var tail := body;
    ghost var expected := BlockReturns(tail);
    while i < |body|
      invariant 0 <= i <= |body| && tail == body[i..]
      invariant expected == BlockReturns(tail)
      decreases |body| - i
    {
      Rest(body, i);
      BlockStep(tail);
      if body[i].Return? {
        return true;
      }
      if body[i].If? {
        var chain;
        chain, i := BranchChainGuaranteesReturn(body, i);
        if chain {
          return true;
        }
        ghost var count := BranchCount(tail[1..]);
        assert tail[1..][count..] == tail[1 + count..];
        tail := AfterChain(tail[1..]);
      } else {
        if body[i].Match? {
          var all := MatchGuaranteesReturn(body[i]);
          if all {
            return true;
          }
        }
        tail := tail[1..];
      }
      i := i + 1;
    }
    return false;
  }

  /** Walks the chain at `start` and leaves `index` on its last branch. */
  method BranchChainGuaranteesReturn(body: seq<Stmt>, start: nat) returns (all: bool, index: nat)
    requires start < |body| && body[start].If?
    ensures all == ChainReturns(body[start..])
    ensures index == start + BranchCount(body[start + 1..])
    decreases body, 1
  {
    Rest(body, start);
    index := start;
    var hasElse := false;
    var branches := BlockGuaranteesReturn(body[index].body);
    ghost var tail := body[start + 1..];
    ghost var expected, count := ChainReturns(body[start..]), BranchCount(tail);
    while index + 1 < |body| && !hasElse
      invariant start <= index < |body| && tail == body[index + 1..]
      invariant count == (index - start) + if hasElse then 0 else BranchCount(tail)
      invariant expected == (branches && (hasElse || BranchesReturn(tail)))
      decreases |body| - index
    {
      var next := body[index + 1];
      if !next.Elif? && !next.Else? {
        break;
      }
      Rest(body, index + 1);
      BranchStep(tail);
      var branch := BlockGuaranteesReturn(next.body);
      index := index + 1;
      hasElse := next.Else?;
      branches := branches && branch;
      tail := tail[1..];
    }
    all := hasElse && branches;
  }

  method MatchGuaranteesReturn(s: Stmt) returns (all: bool)
    requires s.Match?
    ensures all == MatchReturns(s.cases)
    decreases s, 1
  {
    if s.cases == [] {
      return false;
    }
    var i := 0;
    assert s.cases[0..] == s.cases;
    while i < |s.cases|
      invariant 0 <= i <= |s.cases|
      invariant CasesReturn(s.cases) == CasesReturn(s.cases[i..])
    {
      assert s.cases[i..][0] == s.cases[i] && s.cases[i..][1..] == s.cases[i + 1..];
      if !s.cases[i].Case? {
        return false;
      }
      var body := BlockGuaranteesReturn(s.cases[i].body);
      if !body {
        return false;
      }
      i := i + 1;
    }
    return true;
  }
}
