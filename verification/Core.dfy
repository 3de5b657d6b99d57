/** The data model of mem-core: nodes, edges and their identities. */
module Core {
  import opened Sorting

  // ---- Belnap confidence (crates/mem-core/src/belnap.rs) ----

  datatype Belnap = True | False | Both | Neither {
    /** Least upper bound in the knowledge order: combine evidence. */
    function Join(other: Belnap): Belnap {
      match (this, other)
      case (Neither, x) => x
      case (x, Neither) => x
      case (Both, _) => Both
      case (_, Both) => Both
      case (True, True) => True
      case (False, False) => False
      case (True, False) => Both
      case (False, True) => Both
    }
  }

  // ---- nodes (crates/mem-core/src/node.rs) ----

  datatype Plane = Derived | Asserted

  datatype TrustTier = DerivedDeterministic | HumanConfirmed | AgentAsserted | InferredAdvisory

  datatype Status = Active | Superseded | Archived

  datatype SprintPhase = Kickoff | Daily | Close
  datatype NarrativeKind = Journal | Essay | CaseStudy
  datatype ClaimStatus = Confirmed | Corrected | Refined

  datatype NodeKind =
    | Commit | Pr | Sprint(phase: SprintPhase) | Adr | Audit | Finding | Handoff
    | Narrative(narrative: NarrativeKind) | Claim(claim: ClaimStatus) | ManifestChange
    | PinBump | DriftEvent | Benchmark | AgentAction | Blocker | TechDebt | WorkPackage
    | Rationale | AnalogyHypothesis | Doc | Tenant | ChainNetwork | ChainContract
    | ChainEvent | ChainCheckpoint | Branch

  datatype SourceRef =
    | Artifact(repo: Bytes, path: Bytes, gitSha: Bytes, byteStart: nat, byteEnd: nat)
    | GitCommit(repo: Bytes, sha: Bytes)
    | DagNative(key: Bytes)

  datatype CodeAnchor = CodeAnchor(repo: Bytes, path: Bytes, symbol: Option<Bytes>, lineStart: nat, lineEnd: nat)

  /** `data` holds the IEEE-754 bit patterns; NaN and -0.0 do not occur. */
  datatype VersionedVector = VersionedVector(model: Bytes, data: seq<nat>)

  datatype MemoryNode = MemoryNode(
    schemaVersion: nat, plane: Plane, kind: NodeKind, repo: Bytes, author: Bytes,
    sourceRef: SourceRef, content: Bytes,
    validFrom: nat, validTo: Option<nat>, observedAt: nat,
    trustTier: TrustTier, signature: Option<Bytes>, embedding: Option<VersionedVector>,
    confidence: seq<Belnap>, anchors: seq<CodeAnchor>, status: Status)
  {
    /** The content-addressed id. The hash is taken to be injective, so the id is the
        tuple of the identity fields; that the hashed bytes determine this tuple is
        Identity.PreimageDeterminesIdentity. */
    function Id(): ContentHash {
      ContentHash(schemaVersion, plane, kind, repo, author, sourceRef, content)
    }
  }

  datatype ContentHash = ContentHash(
    schemaVersion: nat, plane: Plane, kind: NodeKind, repo: Bytes, author: Bytes,
    sourceRef: SourceRef, content: Bytes)

  // ---- edges (crates/mem-core/src/edge.rs) ----

  datatype EdgeKind =
    | TemporalNext | MergeParent | Supersedes | DependsOn | CausedBy | Motivates | Implements
    | Decides | Refutes | Contradicts | DerivedFrom | AnalogousTo | References | AnchoredTo
    | Emits | Touches | BranchContains

  datatype EdgeMethod = Trailer | Ingest | Nlp | Analogy | Manual

  datatype EdgeProvenance = EdgeProvenance(via: EdgeMethod, asserter: Bytes, at: nat, evidence: Option<Bytes>)

  datatype EdgeKey = EdgeKey(from: ContentHash, to: ContentHash, kind: EdgeKind)

  datatype Edge = Edge(
    from: ContentHash, to: ContentHash, kind: EdgeKind, plane: Plane, trustTier: TrustTier,
    provenance: EdgeProvenance, confidence: seq<Belnap>, quarantined: bool, signature: Option<Bytes>)
  {
    function Key(): EdgeKey { EdgeKey(from, to, kind) }
  }
}
