module ThreadIds {
  /** A thread identifier. */
  type Tid = nat
}
