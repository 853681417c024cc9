/** Who holds the pthread mutex of a two-thread program; `main` is thread false. */
module Mutex {
  datatype Owner = Free | Held(thread: bool)
}
