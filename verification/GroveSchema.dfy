/**
 The foreign keys of Grove's own schema (backend/app/models), which scripts/rebuild_database.py builds afresh before it
 copies and repairs: which table refers to which, and what a deletion does.
 */
module GroveSchema {
  import opened Sqlite
  import opened ForeignKeyRepair

  /** Required keys with ON DELETE CASCADE: the tables that each table refers to. */
  const REQUIRED_CASCADES: map<string, set<string>> := map[
    "active_print_sessions" := {"printers"}, "active_print_spoolman" := {"printers", "print_archives"},
    "ams_sensor_history" := {"printers"}, "github_backup_logs" := {"github_backup_config"},
    "user_groups" := {"users", "groups"}, "kprofile_notes" := {"printers"},
    "library_file_tags" := {"library_files", "library_tags"}, "location_ha_sensors" := {"locations"},
    "long_lived_tokens" := {"users"}, "printer_maintenance" := {"printers", "maintenance_types"},
    "maintenance_history" := {"printer_maintenance"}, "maintenance_log_entries" := {"printers"},
    "notification_digest_queue" := {"notification_providers"}, "notification_logs" := {"notification_providers"},
    "user_oidc_links" := {"users", "oidc_providers"}, "print_queue_variants" := {"print_queue", "library_files"},
    "printer_ha_sensors" := {"printers"}, "printer_sensor_history" := {"printers"},
    "project_bom_items" := {"projects"}, "scheduled_dryings" := {"printers"}, "slot_preset_mappings" := {"printers"},
    "smart_plug_energy_snapshots" := {"smart_plugs"}, "spool_assignment" := {"spool", "printers"},
    "spool_filament_preset" := {"spool"}, "spool_k_profile" := {"spool", "printers"},
    "spool_usage_history" := {"spool"}, "spoolman_k_profile" := {"printers"},
    "spoolman_slot_assignments" := {"printers"}, "user_email_preferences" := {"users"}, "user_otp_codes" := {"users"},
    "user_totp" := {"users"}
  ]

  // Each pair is a table and the table that one of its keys refers to.

  /** Nullable and ON DELETE CASCADE. */
  const NULLABLE_CASCADES: set<(string, string)> := {
    ("api_keys", "users"), ("library_folders", "library_folders"), ("library_files", "library_folders"),
    ("print_queue", "printers"), ("print_queue", "print_archives"), ("print_queue", "library_files")
  }

  /** Nullable and ON DELETE SET NULL. */
  const SET_NULLS: set<(string, string)> := {
    ("print_archives", "projects"), ("print_archives", "users"), ("library_folders", "projects"),
    ("library_folders", "print_archives"), ("file_variant_groups", "users"), ("library_files", "projects"),
    ("library_files", "file_variant_groups"), ("library_files", "users"), ("maintenance_log_entries", "users"),
    ("notification_digest_queue", "printers"), ("notification_logs", "printers"),
    ("notification_providers", "printers"), ("oidc_providers", "groups"), ("pending_uploads", "projects"),
    ("pending_uploads", "print_archives"), ("print_log_entries", "print_archives"),
    ("print_log_entries", "print_queue"), ("print_log_entries", "users"), ("print_queue", "projects"),
    ("print_queue", "users"), ("project_bom_items", "print_archives"), ("scheduled_dryings", "users"),
    ("smart_plugs", "printers"), ("spool_usage_history", "printers"), ("virtual_printers", "printers")
  }

  /** Nullable and without an action. */
  const NO_ACTIONS: set<(string, string)> := {
    ("print_archives", "printers"), ("projects", "projects"), ("spool", "locations"),
    ("spool_usage_history", "print_archives")
  }

  /** The tables with a required cascading key: the only ones the repair deletes from. */
  const DELETABLE := REQUIRED_CASCADES.Keys

  /** One column that refers to the `id` of another table, with the nullability and the action of the lists above. */
  predicate IsGroveKey(schema: Schema, t: string, fk: ForeignKey) {
    && |fk.links| == 1 && fk.links[0].parent == "id" && !Nullable(schema, fk.parent, "id")
    && match fk.onDelete
       case Cascade =>
         if Nullable(schema, t, fk.links[0].child) then (t, fk.parent) in NULLABLE_CASCADES
         else t in REQUIRED_CASCADES && fk.parent in REQUIRED_CASCADES[t]
       case SetNull => (t, fk.parent) in SET_NULLS && Nullable(schema, t, fk.links[0].child)
       case NoAction => (t, fk.parent) in NO_ACTIONS && Nullable(schema, t, fk.links[0].child)
  }

  ghost predicate IsGrove(schema: Schema) {
    forall t, f :: HasKey(schema, t, f) ==> IsGroveKey(schema, t, Key(schema, t, f))
  }

  lemma TablesWithoutDeletions()
    ensures "users" !in DELETABLE && "printers" !in DELETABLE && "projects" !in DELETABLE
  {
  }

  lemma MoreTablesWithoutDeletions()
    ensures "print_archives" !in DELETABLE && "locations" !in DELETABLE
    ensures "library_files" !in DELETABLE && "library_folders" !in DELETABLE
  {
  }

  /** Neither a nullable cascading key nor one without action refers to a table the repair deletes from. */
  lemma OtherParentsAreKept(p: (string, string))
    requires p in NULLABLE_CASCADES + NO_ACTIONS
    ensures p.1 !in DELETABLE
  {
    TablesWithoutDeletions();
    MoreTablesWithoutDeletions();
    hide DELETABLE, REQUIRED_CASCADES;
  }

  lemma GroveKeyFits(schema: Schema, t: string, fk: ForeignKey)
    requires IsGroveKey(schema, t, fk)
    ensures forall l <- fk.links :: !Nullable(schema, fk.parent, l.parent)
    ensures AllNullable(schema, t, fk) || AllCascade(fk)
    ensures AllCascade(fk) && (!AllNullable(schema, t, fk) || fk.parent in DELETABLE) ==> t in DELETABLE
    ensures fk.parent in DELETABLE ==> AllCascade(fk) || (fk.onDelete == SetNull && AllNullable(schema, t, fk))
  {
    assert fk.links[0] in fk.links;
    if (t, fk.parent) in NULLABLE_CASCADES + NO_ACTIONS {
      OtherParentsAreKept((t, fk.parent));
    }
    hide REQUIRED_CASCADES, NULLABLE_CASCADES, SET_NULLS, NO_ACTIONS, Nullable;
  }

  /** Four keys have no action, but none of them refers to a table the repair deletes from. */
  lemma GroveIsConfined(schema: Schema)
    requires IsGrove(schema)
    ensures WellFormed(schema) && KeysAreRequired(schema) && EveryKeyIsRepairable(schema)
    ensures Confined(schema, DELETABLE)
  {
    hide Nullable, AllNullable;
    forall t, f | HasKey(schema, t, f)
      ensures var fk := Key(schema, t, f);
        && |fk.links| == 1
        && (forall l <- fk.links :: !Nullable(schema, fk.parent, l.parent))
        && (AllNullable(schema, t, fk) || AllCascade(fk))
        && (AllCascade(fk) && (!AllNullable(schema, t, fk) || fk.parent in DELETABLE) ==> t in DELETABLE)
        && (fk.parent in DELETABLE ==> AllCascade(fk) || (fk.onDelete == SetNull && AllNullable(schema, t, fk)))
    {
      GroveKeyFits(schema, t, Key(schema, t, f));
    }
    hide IsGroveKey, REQUIRED_CASCADES;
    assert forall t, f :: t in schema && f in schema[t].foreignKeys ==> HasKey(schema, t, f);
    forall t, f, l | HasKey(schema, t, f) && l in Key(schema, t, f).links
      ensures !Nullable(schema, Key(schema, t, f).parent, l.parent)
    {
    }
  }

  /** So the repair of a copied database ends in referential closure, whatever the old database held. */
  lemma GroveRepairCloses(schema: Schema, db: Data, vs: seq<Violation>)
    requires IsGrove(schema) && IsCheckOf(schema, db, vs)
    ensures Run(schema, Start(db), vs).Running?
    ensures Closed(schema, Run(schema, Start(db), vs).pass.data)
  {
    GroveIsConfined(schema);
    RepairAlwaysCloses(schema, db, vs);
  }

  /** The keys of the maintenance tables are required and cascade (backend/app/models/maintenance.py:40-70). */
  lemma MaintenanceKeysCascade(schema: Schema, t: string, fk: ForeignKey)
    requires IsGroveKey(schema, t, fk) && t in ["printer_maintenance", "maintenance_history"]
    ensures fk.onDelete == Cascade && !AllNullable(schema, t, fk)
    ensures forall l <- fk.links :: !Nullable(schema, t, l.child)
  {
    assert fk.links[0] in fk.links;
    hide Nullable, REQUIRED_CASCADES;
  }

  /**
   A maintenance entry hangs on its printer's maintenance item. When the printer is gone the repair deletes the item,
   the entry goes with it, and no report counts the entry.
   */
  lemma MaintenanceHistoryGoesUnreported(schema: Schema, db: Data, vs: seq<Violation>, item: Ref, f: nat, entry: Ref,
                                         g: nat)
    requires IsGrove(schema) && IsCheckOf(schema, db, vs)
    requires item.table == "printer_maintenance" && Violated(schema, db, item, f)
    requires entry.table == "maintenance_history" && References(schema, db, entry, g, item)
    requires forall k :: HasKey(schema, entry.table, k) ==> k == g
    ensures Run(schema, Start(db), vs).Running?
    ensures var end := Run(schema, Start(db), vs).pass;
      && entry in db && entry !in end.data
      && |RowsOf(db.Keys, entry.table)| > |RowsOf(end.data.Keys, entry.table)| + Count(end.deleted, entry.table)
  {
    GroveRepairCloses(schema, db, vs);
    GroveIsConfined(schema);
    MaintenanceKeysCascade(schema, item.table, Key(schema, item.table, f));
    MaintenanceKeysCascade(schema, entry.table, Key(schema, entry.table, g));
    assert !Violated(schema, db, entry, g) && Violation(item, f) in vs;
    hide Run, RowsOf, IsGroveKey, KeysAreRequired, Confined, EveryKeyIsRepairable, AllNullable, Nullable;
    CascadedRowsGoUnreported(schema, db, vs, Violation(item, f), entry, g);
  }
}
