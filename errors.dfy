/** Error values and the Option/Result wrappers shared by every module. */
module Errors {

  /** The errors the store, the codec and the configuration check can report. */
  datatype Error =
    | BucketAlreadyExists(bucket: string)   // CreateBucket on a present name
    | BucketNotDeleted(bucket: string)      // DeleteBucket's re-check after the delete
    | BucketNotFound(bucket: string)        // item operation on an absent bucket
    | KeyNotFound(key: string)              // GetItem on an absent key
    | DecodeError                           // malformed command payload or snapshot
    | StorageDirMissing                     // configuration without a storage directory

  datatype Option<T> = None | Some(value: T)

  datatype Result<T> = Success(value: T) | Failure(error: Error)
}
