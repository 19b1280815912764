// What every physical page allocator promises: a set of free page addresses from which
// one page at a time is taken and to which held pages return.
module PageSet {
  // Allocation answers 0 (NULL) exactly when nothing is free, otherwise some free page,
  // which is the only page to leave the free set.
  ghost predicate AllocStep(F: set<nat>, r: nat, F': set<nat>) {
    && (r == 0 <==> F == {})
    && (r == 0 ==> F' == F)
    && (r != 0 ==> r in F && F' == F - {r})
  }

  // Releasing adds back exactly the page named, if it is managed and not free already.
  ghost predicate FreeStep(managed: set<nat>, F: set<nat>, page: nat, F': set<nat>) {
    F' == if page in managed && page !in F then F + {page} else F
  }
}
