/**
  Port leases: the bounded candidate list with its wraparound, and the first-fit allocator over lease
  files when one process runs alone.
 */
module PortLease {
  import opened Wrappers

  const MIN_PORT: nat := 1024
  const MAX_PORT: nat := 65535
  const CANDIDATE_COUNT: nat := 32

  type Token = nat

  /** A lease file: a valid record, or anything that does not read as one (empty, malformed, not a regular file). */
  datatype LeaseFile = Unreadable | Lease(pid: int, token: Token)

  type Files = map<nat, LeaseFile>

  predicate ValidPort(port: int) {
    MIN_PORT <= port <= MAX_PORT
  }

  // ----- candidates -----

  function CandidatePort(preferred: nat, offset: nat): int {
    var candidate := preferred + offset;
    if candidate <= 65535 then candidate else 1024 + (candidate - 1024) % (65535 - 1024)
  }

  /** The modulus is one short of the number of ports, so a wrapped list starts at 1025 and never meets 1024. */
  lemma CandidateForm(preferred: nat, offset: nat)
    requires ValidPort(preferred) && offset < CANDIDATE_COUNT
    ensures CandidatePort(preferred, offset) == if preferred + offset <= 65535 then preferred + offset else preferred + offset - 64511
    ensures ValidPort(CandidatePort(preferred, offset))
    ensures CandidatePort(preferred, offset) == 1024 <==> preferred == 1024 && offset == 0
  {
  }

  /** The 32 candidates are pairwise distinct valid ports for every valid preferred port. */
  lemma CandidatesDistinct(preferred: nat, i: nat, j: nat)
    requires ValidPort(preferred) && i < CANDIDATE_COUNT && j < CANDIDATE_COUNT
    ensures ValidPort(CandidatePort(preferred, i))
    ensures CandidatePort(preferred, i) == CandidatePort(preferred, j) <==> i == j
  {
    CandidateForm(preferred, i);
    CandidateForm(preferred, j);
  }

  method ProxyPortCandidates(preferred: int) returns (r: Option<seq<int>>)
    ensures r.Some? <==> 1024 <= preferred <= 65535
    ensures r.Some? ==> |r.value| == 32
    ensures r.Some? ==> forall k :: 0 <= k < CANDIDATE_COUNT ==> r.value[k] == CandidatePort(preferred, k)
  {
    if !ValidPort(preferred) { return None; }
    var candidates := [];
    for offset := 0 to CANDIDATE_COUNT
      invariant |candidates| == offset
      invariant forall k :: 0 <= k < offset ==> candidates[k] == CandidatePort(preferred, k)
    {
      candidates := candidates + [CandidatePort(preferred, offset)];
    }
    r := Some(candidates);
  }

  // ----- the allocator, undisturbed -----

  predicate DeadOwned(files: Files, alive: set<int>, port: nat) {
    port in files && files[port].Lease? && files[port].pid !in alive
  }

  /** No file, or a lease whose owner is gone. */
  predicate Free(files: Files, alive: set<int>, port: nat) {
    port !in files || DeadOwned(files, alive, port)
  }

  predicate Fits(files: Files, alive: set<int>, available: set<nat>, preferred: nat, offset: nat)
    requires ValidPort(preferred) && offset < CANDIDATE_COUNT
  {
    CandidateForm(preferred, offset);
    Free(files, alive, CandidatePort(preferred, offset)) && CandidatePort(preferred, offset) in available
  }

  /** The dead leases among the first n candidates, which the allocator has cleared away. */
  ghost predicate Cleared(files: Files, alive: set<int>, preferred: nat, n: nat, port: nat) {
    DeadOwned(files, alive, port) && exists k :: 0 <= k < n && CandidatePort(preferred, k) == port
  }

  ghost function Swept(files: Files, alive: set<int>, preferred: nat, n: nat): Files {
    map port | port in files && !Cleared(files, alive, preferred, n, port) :: files[port]
  }

  datatype Reservation = Reserved(port: nat, token: Token, offset: nat) | Exhausted | InvalidPort

  class LeaseDirectory {
    var files: Files

    constructor ()
      ensures files == map[]
    {
      files := map[];
    }

    /**
      `reserveWithAvailability`, with the liveness check, the TCP probe and the random tokens as
      parameters: first fit over the 32 candidates. Dead leases it passes are cleared; every live
      or malformed file stays, and skipped candidates keep no file of its own.
     */
    method Reserve(preferred: int, pid: int, alive: set<int>, available: set<nat>,
        tokens: seq<Token>) returns (r: Reservation)
      requires |tokens| == CANDIDATE_COUNT
      modifies this
      ensures r.InvalidPort? <==> !ValidPort(preferred)
      ensures r.InvalidPort? ==> files == old(files)
      ensures r.Exhausted? <==>
                ValidPort(preferred) && forall k :: 0 <= k < CANDIDATE_COUNT ==> !Fits(old(files), alive, available, preferred, k)
      ensures r.Exhausted? ==> files == Swept(old(files), alive, preferred, CANDIDATE_COUNT)
      ensures r.Reserved? ==>
                && r.offset < CANDIDATE_COUNT && r.port == CandidatePort(preferred, r.offset) && r.token == tokens[r.offset]
                && Fits(old(files), alive, available, preferred, r.offset)
                && (forall k :: 0 <= k < r.offset ==> !Fits(old(files), alive, available, preferred, k))
                && files == Swept(old(files), alive, preferred, r.offset)[r.port := Lease(pid, r.token)]
    {
      var candidates := ProxyPortCandidates(preferred);
      if candidates.None? { return InvalidPort; }
      var offset := 0;
      NothingSwept(files, alive, preferred);
      while offset < CANDIDATE_COUNT
        invariant 0 <= offset <= CANDIDATE_COUNT
        invariant files == Swept(old(files), alive, preferred, offset)
        invariant forall k :: 0 <= k < offset ==> !Fits(old(files), alive, available, preferred, k)
      {
        CandidateForm(preferred, offset);
        var port: nat := candidates.value[offset];
        SweepOne(old(files), alive, preferred, offset);
        if port in files && (files[port].Unreadable? || files[port].pid in alive) {
          offset := offset + 1;
          continue;
        }
        // unlinkSync of a dead lease, then the exclusive create and the write
        files := files - {port};
        files := files[port := Lease(pid, tokens[offset])];
        if port !in available {
          files := files - {port};
          assert files == Swept(old(files), alive, preferred, offset + 1);
          offset := offset + 1;
          continue;
        }
        assert Fits(old(files), alive, available, preferred, offset);
        return Reserved(port, tokens[offset], offset);
      }
      r := Exhausted;
    }

    /** `releaseLease`: only the lease with that token goes, and only for its own process unless it was handed over. */
    method Release(port: nat, token: Token, pid: int, allowInheritedOwner: bool)
      modifies this
      ensures var own := port in old(files) && old(files)[port].Lease? && old(files)[port].token == token &&
                         (allowInheritedOwner || old(files)[port].pid == pid);
              files == if own then old(files) - {port} else old(files)
    {
      if port in files && files[port].Lease? && files[port].token == token && (allowInheritedOwner || files[port].pid == pid) {
        files := files - {port};
      }
    }
  }

  lemma NothingSwept(files: Files, alive: set<int>, preferred: nat)
    ensures Swept(files, alive, preferred, 0) == files
  {
  }

  /** Passing one more candidate clears its file if that is a dead lease, and nothing else. */
  lemma SweepOne(files: Files, alive: set<int>, preferred: nat, n: nat)
    requires ValidPort(preferred) && n < CANDIDATE_COUNT
    ensures var port: nat := CandidatePort(preferred, n);
            var swept := Swept(files, alive, preferred, n);
            && (port in swept <==> port in files) && (port in files ==> swept[port] == files[port])
            && Swept(files, alive, preferred, n + 1) == if DeadOwned(files, alive, port) then swept - {port} else swept
  {
    CandidateForm(preferred, n);
    var port: nat := CandidatePort(preferred, n);
    forall k | 0 <= k < n ensures CandidatePort(preferred, k) != port {
      CandidatesDistinct(preferred, k, n);
    }
    forall q ensures Cleared(files, alive, preferred, n + 1, q) <==>
                     Cleared(files, alive, preferred, n, q) || (q == port && DeadOwned(files, alive, port)) {
    }
  }

  /** What a reservation means for every other file: live and malformed ones stay, and nothing new appears. */
  lemma ReservationIsGentle(before: Files, alive: set<int>, preferred: nat, n: nat, port: nat)
    ensures var swept := Swept(before, alive, preferred, n);
            && (port in swept ==> port in before && swept[port] == before[port])
            && (port in before && !DeadOwned(before, alive, port) ==> port in swept)
  {
  }
}
