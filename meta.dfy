/** The values the module registry works on: requirements, descriptors (ModuleMeta),
    module instances, the failures resolution can raise, and the collaborators that
    the registry calls but that are not part of this model. */
module Metadata {
  import opened Wrappers

  /** A ModuleRequirement: the name of the needed module, optional version and group
      constraints, and whether an unresolvable requirement is tolerated. */
  datatype Requirement = Requirement(name: string, version: Option<string>, groupId: Option<string>, optional: bool)

  /** A ModuleMeta: one version of one module, the jar that provides it, and its
      run-time requirements in declaration order. */
  datatype Meta = Meta(name: string, version: Option<string>, groupId: string, jar: string, reqs: seq<Requirement>)

  /** A Module created from a descriptor. Java compares modules by identity; `id` is
      that identity, handed out by the registry from an allocation counter. */
  datatype Module = Module(id: nat, meta: Meta)

  /** What ModuleMeta.createModule does when the registry calls it: return a new
      module, return null, throw ModuleNotFoundException, or throw an unchecked exception. */
  datatype Creation = Instance | NullInstance | NotFoundError | RuntimeError

  /** The collaborators of the resolution engine.
      - `candidates` is determineResolutionCandidates: the descriptors that satisfy a
        requirement, in the order the registry prefers them.
      - `create` is the outcome of createModule for a descriptor.
      - `depth` ranks descriptors; it is not called by the code, it only states that
        the descriptor graph has no cycle (see Ranked). */
  datatype Env = Env(candidates: Requirement -> seq<Meta>, create: Meta -> Creation, depth: Meta -> nat)

  /** Every candidate for a requirement of `m` ranks strictly below `m`. Without this
      the recursive resolution of a cyclic graph never returns: the source has no
      guard against re-entering the resolution of a descriptor still being resolved. */
  ghost predicate Ranked(env: Env) {
    forall m: Meta, i, j :: 0 <= i < |m.reqs| && 0 <= j < |env.candidates(m.reqs[i])| ==>
      env.depth(env.candidates(m.reqs[i])[j]) < env.depth(m)
  }

  /** The exceptions resolution can end with. */
  datatype Failure =
    | NullMeta                                   // NullPointerException: resolve(null)
    | NullModule(meta: Meta)                     // NullPointerException: createModule returned null
    | CreateCrashed(meta: Meta)                  // an unchecked exception out of createModule
    | NotFound(meta: Meta)                       // ModuleNotFoundException out of createModule
    | Unresolved(meta: Meta, req: Requirement, cause: Option<Failure>)  // ModuleResolutionException

  /** The two exception types the candidate loop of resolve catches; every other
      failure propagates through it. */
  predicate Caught(f: Failure) {
    f.NotFound? || f.Unresolved?
  }

  /** The exceptions of determineSingleResolutionCandidate. */
  datatype CandidateError =
    | NoCandidate(req: Requirement)                         // NoModuleResolutionCandidateException
    | CandidateNotUnique(req: Requirement, found: seq<Meta>) // ModuleResolutionCandidateNotUniqueException
}
