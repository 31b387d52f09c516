module Maps {
  /** The list kept under a key; nothing was kept yet under a new one. */
  function Of<K, T>(m: map<K, seq<T>>, key: K): seq<T> { if key in m then m[key] else [] }
}
