/** malloc, which may fail whenever it is called, unless there is enough memory. */
module Memory {
  method RunsOut(enough: bool) returns (fails: bool)
    ensures enough ==> !fails
  {
    fails := *;
    if enough { fails := false; }
  }
}
