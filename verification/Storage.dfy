/** Storage in which a value has been constructed, or not. */
module Storage {

  datatype Slot<+T> = Raw | Live(value: T)
}
