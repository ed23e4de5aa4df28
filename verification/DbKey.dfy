/** Physical row keys: store prefix, optional bucket, logical key, optional suffix. */
module DbKeys {
  import opened Bytes

  class DbKey {
    var path: Bytes
    var prefixLen: nat

    constructor New(prefix: Bytes, key: Bytes)
      ensures path == prefix + key && prefixLen == |prefix|
    {
      path := prefix + key;
      prefixLen := |prefix|;
    }

    /** Buckets and keys grow the part that iterators strip, a suffix does not. */
    constructor NewWithBucket(prefix: Bytes, bucket: Bytes, key: Bytes)
      ensures path == prefix + bucket + key
      ensures prefixLen == |prefix| + |bucket| + |key|
    {
      path := prefix;
      prefixLen := |prefix|;
      new;
      AddBucket(bucket);
      AddKey(key);
    }

    method AddBucket(bucket: Bytes)
      modifies this
      ensures path == old(path) + bucket && prefixLen == old(prefixLen) + |bucket|
    {
      path := path + bucket;
      prefixLen := prefixLen + |bucket|;
    }

    method AddKey(key: Bytes)
      modifies this
      ensures path == old(path) + key && prefixLen == old(prefixLen) + |key|
    {
      path := path + key;
      prefixLen := prefixLen + |key|;
    }

    method AddSuffix(suffix: Bytes)
      modifies this`path
      ensures path == old(path) + suffix
    {
      path := path + suffix;
    }
  }
}
