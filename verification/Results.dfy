/** Result codes shared by the storage modules. */
module Results {

  datatype ZkResult = ZKR_SUCCESS | ZKR_DB_KEY_NOT_FOUND | ZKR_DB_ERROR | ZKR_STATE_MANAGER

  datatype Option<+T> = None | Some(value: T)
}
