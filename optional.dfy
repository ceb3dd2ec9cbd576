/** Optional values: `boost::optional` in the raylet, a nullable reference in Java. */
module Optional {

  datatype Option<+T> = None | Some(value: T)
}
