/** The models of an application, known to the ORM by numbers. */
module OrmModels {
  type Model = nat
}
